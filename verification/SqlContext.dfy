/**
  `SQLContext`: the conversation context the agents fill while answering one question.

  Five fields, iterated in a fixed order, plus the private baseline `_sent_to_model` of
  what was last handed to the model. The context is a value here: every operation returns
  a new context instead of mutating one in place (see README for when that is faithful).

  A field value is one of the three shapes `get_delta_for_model` tells apart: a set, a list
  or anything else. The declared fields are all lists; the other shapes only arise when a
  caller assigns a field directly.
 */
module SqlContext {
  import opened Wrappers
  import opened Text
  import opened SimilarQueryPattern
  import Tools
  import RetrievalRoundTrip

  /** What a field holds: a user question or SQL text, or one parsed retrieval record
      (`score` is the matched digit text; `float(score)` is not modelled). */
  datatype Item = Str(s: string) | Retrieved(nl: string, sql: string, score: string)

  datatype Value = ListVal(items: seq<Item>) | SetVal(members: set<Item>) | Scalar(item: Item)

  /** Python truthiness: empty containers and the empty string are false, a dict is true. */
  predicate Truthy(v: Value) {
    match v
    case ListVal(l) => l != []
    case SetVal(m) => m != {}
    case Scalar(x) => !(x.Str? && x.s == [])
  }

  datatype Field = UserQueries | RetrievedQueries | Metadata | Notes | ExecutedSqlQueries

  function Name(f: Field): string {
    match f
    case UserQueries => "user_queries"
    case RetrievedQueries => "retrieved_queries"
    case Metadata => "metadata"
    case Notes => "notes"
    case ExecutedSqlQueries => "executed_sql_queries"
  }

  /** `_field_order`. */
  const FieldOrder: seq<Field> := [UserQueries, RetrievedQueries, Metadata, Notes, ExecutedSqlQueries]

  /** Position of a field in `_field_order`. */
  function Rank(f: Field): nat {
    match f
    case UserQueries => 0
    case RetrievedQueries => 1
    case Metadata => 2
    case Notes => 3
    case ExecutedSqlQueries => 4
  }

  lemma FieldOrderRank(f: Field)
    ensures Rank(f) < |FieldOrder| && FieldOrder[Rank(f)] == f
  {
  }

  lemma NameInjective(f: Field, g: Field)
    ensures Name(f) == Name(g) ==> f == g
  {
  }

  /** The field called `name`, if there is one. */
  function FieldNamed(name: string): (r: Option<Field>)
    ensures r.Some? ==> Name(r.value) == name
    ensures forall f :: Name(f) == name ==> r == Some(f)
  {
    if name == "user_queries" then Some(UserQueries)
    else if name == "retrieved_queries" then Some(RetrievedQueries)
    else if name == "metadata" then Some(Metadata)
    else if name == "notes" then Some(Notes)
    else if name == "executed_sql_queries" then Some(ExecutedSqlQueries)
    else None
  }

  datatype Context = Context(
    userQueries: Value,
    retrievedQueries: Value,
    metadata: Value,
    notes: Value,
    executedSqlQueries: Value,
    sent: map<string, Value>)

  function Get(c: Context, f: Field): Value {
    match f
    case UserQueries => c.userQueries
    case RetrievedQueries => c.retrievedQueries
    case Metadata => c.metadata
    case Notes => c.notes
    case ExecutedSqlQueries => c.executedSqlQueries
  }

  /** A fresh context: the dataclass defaults, every field an empty list, nothing sent. */
  function Fresh(): (c: Context)
    ensures forall f :: Get(c, f) == ListVal([])
    ensures c.sent == map[]
  {
    Context(ListVal([]), ListVal([]), ListVal([]), ListVal([]), ListVal([]), map[])
  }

  /** What the appends raise: a bare `raise` with no active exception, `json.loads()`
      called without its argument, and `append`/`extend` on a field that is not a list. */
  datatype Error = RuntimeError | TypeError | AttributeError

  /** `c` and `d` agree on every field except `f`, and on the baseline. */
  predicate OthersUnchanged(c: Context, d: Context, f: Field) {
    c.sent == d.sent && forall g :: g != f ==> Get(c, g) == Get(d, g)
  }

  // ---------------------------------------------------------------------------
  // Appends

  /** One parsed record: the key stripped, the SQL collapsed, the score text as matched. */
  function Record(g: Groups): Item {
    Retrieved(Strip(g.nl), Collapse(g.sql), g.score)
  }

  function Records(gs: seq<Groups>): (rs: seq<Item>)
    ensures |rs| == |gs|
  {
    seq(|gs|, j requires 0 <= j < |gs| => Record(gs[j]))
  }

  /** The records `append_retrieved_query` builds from a text, one per match of the
      retrieval pattern, in match order. */
  function Parse(text: string): seq<Item> {
    Records(FindAll(text))
  }

  /** `append_retrieved_query`: the parsed records are appended after the existing ones;
      a field that is not a list has no `extend`. */
  function AppendRetrieved(c: Context, text: string): (r: Result<Context, Error>)
    ensures r.Ok? <==> c.retrievedQueries.ListVal?
    ensures r.Err? ==> r.error == AttributeError
    ensures r.Ok? ==> OthersUnchanged(c, r.value, RetrievedQueries)
                      && r.value.retrievedQueries.ListVal?
                      && var old_ := c.retrievedQueries.items;
                         var new_ := r.value.retrievedQueries.items;
                         && |old_| <= |new_|
                         && new_[..|old_|] == old_
                         && new_[|old_|..] == Parse(text)
  {
    match c.retrievedQueries
    case ListVal(l) =>
      var rs := Parse(text);
      assert (l + rs)[..|l|] == l && (l + rs)[|l|..] == rs;
      Ok(c.(retrievedQueries := ListVal(l + rs)))
    case _ => Err(AttributeError)
  }

  /** Every parsed record has its key free of edge whitespace and its SQL in collapsed
      shape; a text with no match parses to nothing. */
  lemma ParseSpec(text: string)
    ensures |Parse(text)| == |FindAll(text)|
    ensures forall j :: 0 <= j < |Parse(text)| ==>
              var x := Parse(text)[j];
              && x.Retrieved?
              && (x.nl == [] || (!IsSpace(x.nl[0]) && !IsSpace(x.nl[|x.nl| - 1])))
              && Normalized(x.sql) && Split(x.sql) == Split(FindAll(text)[j].sql)
              && x.score == FindAll(text)[j].score
    ensures FindAll(text) == [] ==> Parse(text) == []
  {
    RecordsSpec(FindAll(text));
  }

  lemma RecordsSpec(gs: seq<Groups>)
    ensures forall j :: 0 <= j < |gs| ==>
              var x := Records(gs)[j];
              && x.Retrieved?
              && (x.nl == [] || (!IsSpace(x.nl[0]) && !IsSpace(x.nl[|x.nl| - 1])))
              && Normalized(x.sql) && Split(x.sql) == Split(gs[j].sql)
              && x.score == gs[j].score
  {
    forall j | 0 <= j < |gs|
      ensures Normalized(Records(gs)[j].sql) && Split(Records(gs)[j].sql) == Split(gs[j].sql)
    {
      CollapseProperties(gs[j].sql);
    }
  }

  /** Text without a match leaves the retrieved records as they were. */
  lemma AppendRetrievedNoMatch(c: Context, text: string)
    requires c.retrievedQueries.ListVal? && FindAll(text) == []
    ensures AppendRetrieved(c, text) == Ok(c)
  {
    assert c.retrievedQueries.items + [] == c.retrievedQueries.items;
  }

  /** The record parsed back from the block the tool rendered for one key. */
  lemma RecordOfExpect(e: RetrievalRoundTrip.Entry)
    ensures Record(RetrievalRoundTrip.Expect(e)) == Retrieved(Strip(e.key), Collapse(e.sql), Tools.FormatScore(e.score))
  {
    StripStrip(e.key);
    CollapseStrip(e.sql);
  }

  /** The text `retrieveQueries` returns, appended to the context, adds one record per key
      in key order: the stripped key, the collapsed SQL value, and a score text that reads
      back as the score. */
  lemma AppendToolOutput(c: Context, keys: seq<string>, scores: seq<int>, dict: map<string, string>)
    requires c.retrievedQueries.ListVal?
    requires |keys| <= |scores|
    requires forall j :: 0 <= j < |keys| ==>
               keys[j] in dict && RetrievalRoundTrip.Renderable(keys[j], dict[keys[j]]) && scores[j] >= 0
    ensures var t := Tools.RetrieveQueries(Some(keys), Some(scores), dict);
            && t.Ok?
            && AppendRetrieved(c, t.value).Ok?
            && var added := AppendRetrieved(c, t.value).value.retrievedQueries.items[|c.retrievedQueries.items|..];
               && |added| == |keys|
               && forall j :: 0 <= j < |keys| ==>
                    && added[j] == Retrieved(Strip(keys[j]), Collapse(dict[keys[j]]), Tools.FormatScore(scores[j]))
                    && Tools.FixedValue(added[j].score) == Some(scores[j])
  {
    var t := Tools.RetrieveQueries(Some(keys), Some(scores), dict);
    RetrievalRoundTrip.RetrieveParsesBack(keys, scores, dict);
    var es := RetrievalRoundTrip.Entries(keys, scores, dict);
    var added := Parse(t.value);
    forall j | 0 <= j < |keys|
      ensures added[j] == Retrieved(Strip(keys[j]), Collapse(dict[keys[j]]), Tools.FormatScore(scores[j]))
      ensures Tools.FixedValue(added[j].score) == Some(scores[j])
    {
      RetrievalRoundTrip.ExpectedAt(es, j);
      RecordOfExpect(es[j]);
      Tools.FormatScoreRoundTrip(scores[j]);
    }
  }

  /** `append_note` as written: a blank note returns early, and any other note reaches
      `json.loads()` with no argument, whose `TypeError` the `except` clause does not catch. */
  function AppendNote(c: Context, note: string): (r: Result<Context, Error>)
    ensures IsBlank(note) <==> r == Ok(c)
    ensures !IsBlank(note) <==> r == Err(TypeError)
  {
    if IsBlank(note) then Ok(c) else Err(TypeError)
  }

  /** `append_note` as its docstring and `except` clause intend: the note decoded as JSON
      (`decoded`, the result of the JSON parser, which is not modelled; `None` when it
      raises `JSONDecodeError`) or else the stripped note, appended as one element. */
  function AppendNoteIntended(c: Context, note: string, decoded: Option<Item>): (r: Result<Context, Error>)
    ensures IsBlank(note) ==> r == Ok(c)
    ensures !IsBlank(note) ==> (r.Ok? <==> c.notes.ListVal?)
    ensures r.Err? ==> r.error == AttributeError
    ensures !IsBlank(note) && r.Ok? ==>
              && OthersUnchanged(c, r.value, Notes)
              && r.value.notes.ListVal?
              && |r.value.notes.items| == |c.notes.items| + 1
              && r.value.notes.items[..|c.notes.items|] == c.notes.items
              && var x := r.value.notes.items[|c.notes.items|];
                 && (decoded.Some? ==> x == decoded.value)
                 && (decoded.None? ==> x == Str(Strip(note)) && x.s != [] && !IsSpace(x.s[0]) && !IsSpace(x.s[|x.s| - 1]))
  {
    if IsBlank(note) then Ok(c)
    else
      match c.notes
      case ListVal(l) =>
        var x := if decoded.Some? then decoded.value else Str(Strip(note));
        assert (l + [x])[..|l|] == l;
        Ok(c.(notes := ListVal(l + [x])))
      case _ => Err(AttributeError)
  }

  /** `append_executed_sql_query`: a non-blank query is appended with its whitespace
      collapsed; a blank one reaches a bare `raise`. */
  function AppendExecuted(c: Context, q: string): (r: Result<Context, Error>)
    ensures IsBlank(q) ==> r == Err(RuntimeError)
    ensures !IsBlank(q) ==> (r.Ok? <==> c.executedSqlQueries.ListVal?)
    ensures r.Err? ==> r.error == (if IsBlank(q) then RuntimeError else AttributeError)
    ensures r.Ok? ==> OthersUnchanged(c, r.value, ExecutedSqlQueries)
                      && r.value.executedSqlQueries.ListVal?
                      && r.value.executedSqlQueries.items == c.executedSqlQueries.items + [Str(Collapse(q))]
  {
    if IsBlank(q) then Err(RuntimeError)
    else
      match c.executedSqlQueries
      case ListVal(l) => Ok(c.(executedSqlQueries := ListVal(l + [Str(Collapse(q))])))
      case _ => Err(AttributeError)
  }

  /** The logged query is in collapsed shape, is its own normalisation, keeps the input's
      words, and is never empty. */
  lemma ExecutedEntryShape(c: Context, q: string)
    requires AppendExecuted(c, q).Ok?
    ensures var x := AppendExecuted(c, q).value.executedSqlQueries.items[|c.executedSqlQueries.items|];
            && x.Str? && Normalized(x.s) && Collapse(x.s) == x.s && Split(x.s) == Split(q) && x.s != []
  {
    CollapseProperties(q);
  }

  /** No deduplication: logging the same query twice keeps both entries. */
  lemma ExecutedTwice(c: Context, q: string)
    requires !IsBlank(q) && c.executedSqlQueries.ListVal?
    ensures AppendExecuted(c, q).Ok? && AppendExecuted(AppendExecuted(c, q).value, q).Ok?
    ensures AppendExecuted(AppendExecuted(c, q).value, q).value.executedSqlQueries.items
            == c.executedSqlQueries.items + [Str(Collapse(q)), Str(Collapse(q))]
  {
  }

  // ---------------------------------------------------------------------------
  // Iteration

  /** `__iter__`: every field, in `_field_order`. */
  function Iter(c: Context): (r: seq<(string, Value)>)
    ensures |r| == |FieldOrder|
  {
    seq(|FieldOrder|, j requires 0 <= j < |FieldOrder| => (Name(FieldOrder[j]), Get(c, FieldOrder[j])))
  }

  function Yield(c: Context, fs: seq<Field>, exclude: set<string>): (r: seq<(string, Value)>)
    ensures |r| <= |fs|
  {
    if fs == [] then []
    else (if Name(fs[0]) in exclude then [] else [(Name(fs[0]), Get(c, fs[0]))]) + Yield(c, fs[1..], exclude)
  }

  /** `iter_fields(exclude=...)`: the fields whose names are not excluded, in order. */
  function IterFields(c: Context, exclude: set<string>): seq<(string, Value)> {
    Yield(c, FieldOrder, exclude)
  }

  /** The fields of `fs` whose names are not excluded, in order. */
  function Kept(fs: seq<Field>, exclude: set<string>): (k: seq<Field>)
    ensures |k| <= |fs|
  {
    if fs == [] then []
    else (if Name(fs[0]) in exclude then [] else [fs[0]]) + Kept(fs[1..], exclude)
  }

  /** Each field paired with its value. */
  function Pairs(c: Context, fs: seq<Field>): (r: seq<(string, Value)>)
    ensures |r| == |fs|
  {
    seq(|fs|, j requires 0 <= j < |fs| => (Name(fs[j]), Get(c, fs[j])))
  }

  predicate RankOrdered(fs: seq<Field>) {
    forall i, j :: 0 <= i < j < |fs| ==> Rank(fs[i]) < Rank(fs[j])
  }

  lemma {:induction false} YieldIsPairs(c: Context, fs: seq<Field>, exclude: set<string>)
    ensures Yield(c, fs, exclude) == Pairs(c, Kept(fs, exclude))
    decreases |fs|
  {
    if fs != [] {
      YieldIsPairs(c, fs[1..], exclude);
      var k := Kept(fs[1..], exclude);
      if Name(fs[0]) !in exclude {
        assert Pairs(c, [fs[0]] + k) == [(Name(fs[0]), Get(c, fs[0]))] + Pairs(c, k);
      } else {
        assert [] + k == k;
      }
    }
  }

  lemma KeptSpec(fs: seq<Field>, exclude: set<string>)
    requires RankOrdered(fs)
    ensures forall f :: f in Kept(fs, exclude) <==> f in fs && Name(f) !in exclude
    ensures RankOrdered(Kept(fs, exclude))
    ensures forall f :: f in Kept(fs, exclude) ==> Rank(fs[0]) <= Rank(f)
  {
    KeptMembers(fs, exclude);
    KeptRanked(fs, exclude);
    forall f | f in Kept(fs, exclude) ensures Rank(fs[0]) <= Rank(f) {
      var j :| 0 <= j < |fs| && fs[j] == f;
      if j > 0 {
        assert Rank(fs[0]) < Rank(fs[j]);
      }
    }
  }

  /** A field is kept exactly when it is listed and its name is not excluded. */
  lemma {:induction false} KeptMembers(fs: seq<Field>, exclude: set<string>)
    ensures forall f :: f in Kept(fs, exclude) <==> f in fs && Name(f) !in exclude
    decreases |fs|
  {
    if fs != [] {
      KeptMembers(fs[1..], exclude);
      assert forall f :: f in fs <==> f == fs[0] || f in fs[1..];
    }
  }

  /** Keeping some fields of a rank-ordered list keeps it rank-ordered. */
  lemma {:induction false} KeptRanked(fs: seq<Field>, exclude: set<string>)
    requires RankOrdered(fs)
    ensures RankOrdered(Kept(fs, exclude))
    decreases |fs|
  {
    if fs != [] {
      RankedTail(fs);
      KeptRanked(fs[1..], exclude);
      var k := Kept(fs[1..], exclude);
      if Name(fs[0]) !in exclude {
        KeptMembers(fs[1..], exclude);
        ConsRanked(fs[0], k);
      } else {
        assert [] + k == k;
      }
    }
  }

  /** The tail of a rank-ordered list is rank-ordered and ranks above its head. */
  lemma RankedTail(fs: seq<Field>)
    requires RankOrdered(fs) && fs != []
    ensures RankOrdered(fs[1..])
    ensures forall f :: f in fs[1..] ==> Rank(fs[0]) < Rank(f)
  {
    forall i, j | 0 <= i < j < |fs| - 1 ensures Rank(fs[1..][i]) < Rank(fs[1..][j]) {
      assert fs[1..][i] == fs[i + 1] && fs[1..][j] == fs[j + 1];
    }
    forall f | f in fs[1..] ensures Rank(fs[0]) < Rank(f) {
      var j :| 0 <= j < |fs| - 1 && fs[1..][j] == f;
      assert fs[j + 1] == f;
    }
  }

  /** A field ranked below a rank-ordered list may go in front of it. */
  lemma ConsRanked(f: Field, k: seq<Field>)
    requires RankOrdered(k) && forall g :: g in k ==> Rank(f) < Rank(g)
    ensures RankOrdered([f] + k)
  {
    var l := [f] + k;
    forall i, j | 0 <= i < j < |l| ensures Rank(l[i]) < Rank(l[j]) {
      assert l[j] == k[j - 1];
      if i > 0 {
        assert l[i] == k[i - 1];
      }
    }
  }

  lemma FieldOrderRanked()
    ensures RankOrdered(FieldOrder)
    ensures forall f :: f in FieldOrder
  {
    forall f ensures f in FieldOrder {
      FieldOrderRank(f);
    }
  }

  /** `iter_fields` yields, for exactly the fields whose names are not excluded and in
      `_field_order`, each name with its value. */
  lemma IterFieldsSpec(c: Context, exclude: set<string>)
    ensures var k := Kept(FieldOrder, exclude);
            && IterFields(c, exclude) == Pairs(c, k)
            && (forall f :: f in k <==> Name(f) !in exclude)
            && RankOrdered(k)
  {
    FieldOrderRanked();
    YieldIsPairs(c, FieldOrder, exclude);
    KeptSpec(FieldOrder, exclude);
  }

  lemma {:induction false} KeptNone(fs: seq<Field>)
    ensures Kept(fs, {}) == fs
    decreases |fs|
  {
    if fs != [] {
      KeptNone(fs[1..]);
      assert [fs[0]] + fs[1..] == fs;
    }
  }

  /** `__iter__` is `iter_fields` with nothing excluded. */
  lemma IterIsIterFieldsAll(c: Context)
    ensures Iter(c) == IterFields(c, {})
  {
    YieldIsPairs(c, FieldOrder, {});
    KeptNone(FieldOrder);
  }

  function Names(r: seq<(string, Value)>): set<string> {
    set j | 0 <= j < |r| :: r[j].0
  }

  /** `{k: v for k, v in pairs}`: later pairs win. */
  function DictOf(pairs: seq<(string, Value)>): (d: map<string, Value>)
    ensures d.Keys == Names(pairs)
  {
    if pairs == [] then map[]
    else
      var d := DictOf(pairs[..|pairs| - 1]);
      var r := d[pairs[|pairs| - 1].0 := pairs[|pairs| - 1].1];
      assert Names(pairs) == Names(pairs[..|pairs| - 1]) + {pairs[|pairs| - 1].0} by {
        forall x | x in Names(pairs) ensures x in Names(pairs[..|pairs| - 1]) + {pairs[|pairs| - 1].0} {
          var j :| 0 <= j < |pairs| && pairs[j].0 == x;
          if j < |pairs| - 1 { assert pairs[..|pairs| - 1][j] == pairs[j]; }
        }
      }
      r
  }

  /** `to_dict(exclude=...)`. */
  function ToDict(c: Context, exclude: set<string>): map<string, Value> {
    DictOf(IterFields(c, exclude))
  }

  lemma {:induction false} DictOfDistinct(pairs: seq<(string, Value)>, j: nat)
    requires j < |pairs|
    requires forall a, b :: 0 <= a < b < |pairs| ==> pairs[a].0 != pairs[b].0
    ensures pairs[j].0 in DictOf(pairs) && DictOf(pairs)[pairs[j].0] == pairs[j].1
    decreases |pairs|
  {
    if j < |pairs| - 1 {
      DictOfDistinct(pairs[..|pairs| - 1], j);
    }
  }

  /** `to_dict` maps exactly the non-excluded field names, each to that field's value. */
  lemma ToDictSpec(c: Context, exclude: set<string>)
    ensures forall f :: Name(f) in ToDict(c, exclude) <==> Name(f) !in exclude
    ensures forall f :: Name(f) in ToDict(c, exclude) ==> ToDict(c, exclude)[Name(f)] == Get(c, f)
    ensures forall name :: name in ToDict(c, exclude) ==> FieldNamed(name).Some?
  {
    var k := Kept(FieldOrder, exclude);
    var r := IterFields(c, exclude);
    IterFieldsSpec(c, exclude);
    forall a, b | 0 <= a < b < |r| ensures r[a].0 != r[b].0 {
      NameInjective(k[a], k[b]);
    }
    forall f | Name(f) !in exclude ensures Name(f) in Names(r) {
      var j :| 0 <= j < |k| && k[j] == f;
      assert r[j].0 == Name(f);
    }
    forall f | Name(f) in ToDict(c, exclude) ensures ToDict(c, exclude)[Name(f)] == Get(c, f) {
      var j :| 0 <= j < |r| && r[j].0 == Name(f);
      NameInjective(k[j], f);
      DictOfDistinct(r, j);
    }
  }

  // ---------------------------------------------------------------------------
  // The delta handed to the model

  function Lookup(m: map<string, Value>, k: string): Option<Value> {
    if k in m then Some(m[k]) else None
  }

  function Or(a: Option<Value>, b: Option<Value>): Option<Value> {
    if a.Some? then a else b
  }

  /** What one field contributes: an entry for the delta and a new baseline, each absent
      when the field leaves it alone. */
  datatype Step = Step(entry: Option<Value>, baseline: Option<Value>)

  const Untouched := Step(None, None)

  /** The right operand of `value - (prev if prev else set())`: a falsy or missing
      baseline counts as the empty set, and subtracting anything but a set raises. */
  function SetBaseline(prev: Option<Value>): (r: Result<set<Item>, Error>)
    ensures r.Err? <==> Unsubtractable(prev)
    ensures r.Err? ==> r.error == TypeError
    ensures r.Ok? ==> r.value == (if prev.Some? && prev.value.SetVal? then prev.value.members else {})
  {
    if prev.None? || !Truthy(prev.value) then Ok({})
    else if prev.value.SetVal? then Ok(prev.value.members)
    else Err(TypeError)
  }

  /** One iteration of the `get_delta_for_model` loop as written. Everything sits under
      the set test: new items are reported with the baseline replaced by a copy of the
      value; otherwise the `elif isinstance(value, list)` test is false for a set and the
      `else` reports the whole value when it differs from the baseline. A value that is
      not a set is not looked at. */
  function FieldDelta(v: Value, prev: Option<Value>): Result<Step, Error> {
    match v
    case SetVal(m) =>
      (match SetBaseline(prev)
       case Err(e) => Err(e)
       case Ok(b) =>
         if m - b != {} then Ok(Step(Some(SetVal(m - b)), Some(v)))
         else if prev != Some(v) then Ok(Step(Some(v), Some(v)))
         else Ok(Untouched))
    case _ => Ok(Untouched)
  }

  /** The items a baseline already holds, for the intended list test `v not in prev`. */
  function Elems(prev: Option<Value>): set<Item> {
    if prev.None? then {}
    else match prev.value
      case SetVal(m) => m
      case ListVal(l) => set j | 0 <= j < |l| :: l[j]
      case Scalar(_) => {}
  }

  /** The loop body with the three tests side by side, as the method's description and
      the list branch's own code intend: new set members, new list items (in order), or a
      changed scalar. */
  function FieldDeltaIntended(v: Value, prev: Option<Value>): Step {
    match v
    case SetVal(m) =>
      var n := m - Elems(prev);
      if n != {} then Step(Some(SetVal(n)), Some(v)) else Untouched
    case ListVal(l) =>
      var n := Unseen(l, Elems(prev));
      if n != [] then Step(Some(ListVal(n)), Some(v)) else Untouched
    case Scalar(_) =>
      if prev != Some(v) then Step(Some(v), Some(v)) else Untouched
  }

  /** `[x for x in l if x not in seen]`. */
  function Unseen(l: seq<Item>, seen: set<Item>): (r: seq<Item>)
    ensures forall j :: 0 <= j < |r| ==> r[j] !in seen
    ensures forall j :: 0 <= j < |l| && l[j] !in seen ==> l[j] in r
  {
    if l == [] then []
    else (if l[0] in seen then [] else [l[0]]) + Unseen(l[1..], seen)
  }

  function StepFor(intended: bool, v: Value, prev: Option<Value>): Result<Step, Error> {
    if intended then Ok(FieldDeltaIntended(v, prev)) else FieldDelta(v, prev)
  }

  /** The outcome of the loop: the delta, or the error that stopped it, and the baseline
      as the loop left it (updates made before an error stay). */
  datatype Run = Run(result: Result<map<string, Value>, Error>, sent: map<string, Value>)

  function Diff(pairs: seq<(string, Value)>, delta: map<string, Value>, sent: map<string, Value>, intended: bool): Run
    decreases |pairs|
  {
    if pairs == [] then Run(Ok(delta), sent)
    else
      var k := pairs[0].0;
      match StepFor(intended, pairs[0].1, Lookup(sent, k))
      case Err(e) => Run(Err(e), sent)
      case Ok(st) =>
        Diff(pairs[1..],
             if st.entry.Some? then delta[k := st.entry.value] else delta,
             if st.baseline.Some? then sent[k := st.baseline.value] else sent,
             intended)
  }

  /** The result of `get_delta_for_model` and the context afterwards. */
  datatype Delta = Delta(result: Result<map<string, Value>, Error>, after: Context)

  /** `exclude=["user_queries"]`. */
  const DefaultExclude: set<string> := {"user_queries"}

  /** `get_delta_for_model(exclude)` as written. */
  function GetDeltaForModel(c: Context, exclude: set<string>): (d: Delta)
    ensures forall f :: Get(d.after, f) == Get(c, f)
  {
    var run := Diff(IterFields(c, exclude), map[], c.sent, false);
    Delta(run.result, c.(sent := run.sent))
  }

  /** The same loop with the intended branch structure. */
  function GetDeltaIntended(c: Context, exclude: set<string>): (d: Delta)
    ensures forall f :: Get(d.after, f) == Get(c, f)
  {
    var run := Diff(IterFields(c, exclude), map[], c.sent, true);
    Delta(run.result, c.(sent := run.sent))
  }

  predicate DistinctNames(pairs: seq<(string, Value)>) {
    forall a, b :: 0 <= a < b < |pairs| ==> pairs[a].0 != pairs[b].0
  }

  lemma NamesTail(pairs: seq<(string, Value)>)
    requires pairs != []
    ensures Names(pairs) == {pairs[0].0} + Names(pairs[1..])
    ensures DistinctNames(pairs) ==> DistinctNames(pairs[1..]) && pairs[0].0 !in Names(pairs[1..])
  {
    var t := pairs[1..];
    forall x | x in Names(pairs) ensures x in {pairs[0].0} + Names(t) {
      var j :| 0 <= j < |pairs| && pairs[j].0 == x;
      if j > 0 { assert t[j - 1] == pairs[j]; }
    }
    forall x | x in Names(t) ensures x in Names(pairs) {
      var j :| 0 <= j < |t| && t[j].0 == x;
      assert pairs[j + 1] == t[j];
    }
    if DistinctNames(pairs) {
      forall a, b | 0 <= a < b < |t| ensures t[a].0 != t[b].0 {
        assert t[a] == pairs[a + 1] && t[b] == pairs[b + 1];
      }
      forall j | 0 <= j < |t| ensures t[j].0 != pairs[0].0 {
        assert pairs[j + 1] == t[j];
      }
    }
  }

  /** The loop touches only the names it visits, in the delta and in the baseline. */
  lemma {:induction false} DiffFrame(pairs: seq<(string, Value)>, delta: map<string, Value>, sent: map<string, Value>, intended: bool)
    ensures var run := Diff(pairs, delta, sent, intended);
            && (forall k :: k !in Names(pairs) ==> Lookup(run.sent, k) == Lookup(sent, k))
            && (run.result.Ok? ==> forall k :: k !in Names(pairs) ==> Lookup(run.result.value, k) == Lookup(delta, k))
    decreases |pairs|
  {
    if pairs != [] {
      NamesTail(pairs);
      var k := pairs[0].0;
      match StepFor(intended, pairs[0].1, Lookup(sent, k))
      case Err(e) =>
      case Ok(st) =>
        DiffFrame(pairs[1..],
                  if st.entry.Some? then delta[k := st.entry.value] else delta,
                  if st.baseline.Some? then sent[k := st.baseline.value] else sent,
                  intended);
    }
  }

  /** The loop succeeds exactly when every visited field's step does, each step seeing
      the baseline as it was before the call (names are visited once). */
  lemma {:induction false} DiffOk(pairs: seq<(string, Value)>, delta: map<string, Value>, sent: map<string, Value>, intended: bool)
    requires DistinctNames(pairs)
    ensures Diff(pairs, delta, sent, intended).result.Ok?
            <==> forall j :: 0 <= j < |pairs| ==> StepFor(intended, pairs[j].1, Lookup(sent, pairs[j].0)).Ok?
    decreases |pairs|
  {
    if pairs != [] {
      NamesTail(pairs);
      var k := pairs[0].0;
      var t := pairs[1..];
      match StepFor(intended, pairs[0].1, Lookup(sent, k))
      case Err(e) =>
      case Ok(st) =>
        var sent' := if st.baseline.Some? then sent[k := st.baseline.value] else sent;
        DiffOk(t, if st.entry.Some? then delta[k := st.entry.value] else delta, sent', intended);
        forall j | 0 <= j < |t| ensures Lookup(sent', t[j].0) == Lookup(sent, t[j].0) {
          assert t[j].0 in Names(t);
        }
        assert forall j :: 1 <= j < |pairs| ==> pairs[j] == t[j - 1];
    }
  }

  /** On success, each visited name ends with the baseline and the delta entry its own
      step gives, or keeps the old ones where the step leaves them alone. */
  lemma {:induction false} DiffFields(pairs: seq<(string, Value)>, delta: map<string, Value>, sent: map<string, Value>, intended: bool)
    requires DistinctNames(pairs)
    ensures var run := Diff(pairs, delta, sent, intended);
            run.result.Ok? ==>
              forall j :: 0 <= j < |pairs| ==>
                StepFor(intended, pairs[j].1, Lookup(sent, pairs[j].0)).Ok?
                && var st := StepFor(intended, pairs[j].1, Lookup(sent, pairs[j].0)).value;
                   && Lookup(run.sent, pairs[j].0) == Or(st.baseline, Lookup(sent, pairs[j].0))
                   && Lookup(run.result.value, pairs[j].0) == Or(st.entry, Lookup(delta, pairs[j].0))
    decreases |pairs|
  {
    if pairs != [] {
      NamesTail(pairs);
      var k := pairs[0].0;
      var t := pairs[1..];
      match StepFor(intended, pairs[0].1, Lookup(sent, k))
      case Err(e) =>
      case Ok(st) =>
        var delta' := if st.entry.Some? then delta[k := st.entry.value] else delta;
        var sent' := if st.baseline.Some? then sent[k := st.baseline.value] else sent;
        DiffFields(t, delta', sent', intended);
        DiffFrame(t, delta', sent', intended);
        forall j | 0 <= j < |t| ensures Lookup(sent', t[j].0) == Lookup(sent, t[j].0) && Lookup(delta', t[j].0) == Lookup(delta, t[j].0) {
          assert t[j].0 in Names(t);
        }
        assert forall j :: 1 <= j < |pairs| ==> pairs[j] == t[j - 1];
    }
  }

  /** A step that changes nothing keeps the name's baseline, whether or not the loop
      reaches it or stops early. */
  lemma {:induction false} DiffKeeps(pairs: seq<(string, Value)>, delta: map<string, Value>, sent: map<string, Value>, intended: bool, k: string)
    requires forall j :: 0 <= j < |pairs| && pairs[j].0 == k ==> StepFor(intended, pairs[j].1, Lookup(sent, k)) == Ok(Untouched)
    ensures Lookup(Diff(pairs, delta, sent, intended).sent, k) == Lookup(sent, k)
    ensures Diff(pairs, delta, sent, intended).result.Ok? ==> Lookup(Diff(pairs, delta, sent, intended).result.value, k) == Lookup(delta, k)
    decreases |pairs|
  {
    if pairs != [] {
      var k0 := pairs[0].0;
      match StepFor(intended, pairs[0].1, Lookup(sent, k0))
      case Err(e) =>
      case Ok(st) =>
        var delta' := if st.entry.Some? then delta[k0 := st.entry.value] else delta;
        var sent' := if st.baseline.Some? then sent[k0 := st.baseline.value] else sent;
        assert Lookup(sent', k) == Lookup(sent, k) && Lookup(delta', k) == Lookup(delta, k);
        assert forall j :: 1 <= j < |pairs| ==> pairs[j] == pairs[1..][j - 1];
        DiffKeeps(pairs[1..], delta', sent', intended, k);
    }
  }

  /** When no step changes anything, the loop returns the delta and baseline it started with. */
  lemma {:induction false} DiffQuiet(pairs: seq<(string, Value)>, delta: map<string, Value>, sent: map<string, Value>, intended: bool)
    requires forall j :: 0 <= j < |pairs| ==> StepFor(intended, pairs[j].1, Lookup(sent, pairs[j].0)) == Ok(Untouched)
    ensures Diff(pairs, delta, sent, intended) == Run(Ok(delta), sent)
    decreases |pairs|
  {
    if pairs != [] {
      assert forall j :: 1 <= j < |pairs| ==> pairs[j] == pairs[1..][j - 1];
      DiffQuiet(pairs[1..], delta, sent, intended);
    }
  }

  /** The pairs `iter_fields` yields have distinct names, cover exactly the non-excluded
      fields, and depend on the fields only (not on the baseline). */
  lemma IterFieldsPairs(c: Context, exclude: set<string>)
    ensures var pairs := IterFields(c, exclude);
            && DistinctNames(pairs)
            && (forall j :: 0 <= j < |pairs| ==>
                  pairs[j].0 !in exclude && FieldNamed(pairs[j].0).Some? && pairs[j].1 == Get(c, FieldNamed(pairs[j].0).value))
            && (forall f :: Name(f) !in exclude ==> exists j :: 0 <= j < |pairs| && pairs[j] == (Name(f), Get(c, f)))
            && (forall d: Context :: (forall f :: Get(d, f) == Get(c, f)) ==> IterFields(d, exclude) == pairs)
  {
    var k := Kept(FieldOrder, exclude);
    var pairs := IterFields(c, exclude);
    IterFieldsSpec(c, exclude);
    forall a, b | 0 <= a < b < |pairs| ensures pairs[a].0 != pairs[b].0 {
      NameInjective(k[a], k[b]);
    }
    forall f | Name(f) !in exclude ensures exists j :: 0 <= j < |pairs| && pairs[j] == (Name(f), Get(c, f)) {
      var j :| 0 <= j < |k| && k[j] == f;
      assert pairs[j] == (Name(f), Get(c, f));
    }
    forall d: Context | forall f :: Get(d, f) == Get(c, f) ensures IterFields(d, exclude) == pairs {
      IterFieldsSpec(d, exclude);
    }
  }

  /** A baseline the set branch cannot subtract: truthy and not a set. */
  predicate Unsubtractable(prev: Option<Value>) {
    prev.Some? && Truthy(prev.value) && !prev.value.SetVal?
  }

  /** The step as written, field by field: only sets are looked at; the step fails exactly
      on an unsubtractable baseline; afterwards the baseline is the value; a baseline equal
      to the value gives nothing. */
  lemma FieldDeltaLaws(v: Value, prev: Option<Value>)
    ensures !v.SetVal? ==> FieldDelta(v, prev) == Ok(Untouched)
    ensures FieldDelta(v, prev).Err? <==> v.SetVal? && Unsubtractable(prev)
    ensures FieldDelta(v, prev).Ok? && v.SetVal? ==> Or(FieldDelta(v, prev).value.baseline, prev) == Some(v)
    ensures v.SetVal? ==> FieldDelta(v, Some(v)) == Ok(Untouched)
    ensures FieldDelta(v, prev).Ok? && FieldDelta(v, prev).value.entry.Some? ==>
              v.SetVal? && FieldDelta(v, prev).value.entry.value.SetVal?
              && FieldDelta(v, prev).value.entry.value.members <= v.members
  {
  }

  /** Excluded names (by default `user_queries`) never appear in the delta and keep their
      baseline entry; so do names that are not fields. */
  lemma DeltaExcluded(c: Context, exclude: set<string>)
    ensures var d := GetDeltaForModel(c, exclude);
            forall name :: name in exclude || FieldNamed(name).None? ==>
              Lookup(d.after.sent, name) == Lookup(c.sent, name)
              && (d.result.Ok? ==> name !in d.result.value)
  {
    var pairs := IterFields(c, exclude);
    IterFieldsPairs(c, exclude);
    DiffFrame(pairs, map[], c.sent, false);
    forall name | name in exclude || FieldNamed(name).None? ensures name !in Names(pairs) {
      assert forall j :: 0 <= j < |pairs| ==> pairs[j].0 != name;
    }
  }

  /** A field that does not hold a set never gets a delta entry and never moves its
      baseline: with every declared field a list, nothing is ever reported. */
  lemma DeltaIgnoresNonSets(c: Context, exclude: set<string>, f: Field)
    requires !Get(c, f).SetVal?
    ensures var d := GetDeltaForModel(c, exclude);
            && Lookup(d.after.sent, Name(f)) == Lookup(c.sent, Name(f))
            && (d.result.Ok? ==> Name(f) !in d.result.value)
  {
    var pairs := IterFields(c, exclude);
    IterFieldsPairs(c, exclude);
    forall j | 0 <= j < |pairs| && pairs[j].0 == Name(f)
      ensures StepFor(false, pairs[j].1, Lookup(c.sent, Name(f))) == Ok(Untouched)
    {
      NameInjective(FieldNamed(pairs[j].0).value, f);
      FieldDeltaLaws(pairs[j].1, Lookup(c.sent, Name(f)));
    }
    DiffKeeps(pairs, map[], c.sent, false, Name(f));
  }

  /** The call fails (with `TypeError`) exactly when some non-excluded set field has a
      baseline it cannot subtract. */
  lemma DeltaFails(c: Context, exclude: set<string>)
    ensures GetDeltaForModel(c, exclude).result.Err? <==>
              exists f :: Name(f) !in exclude && Get(c, f).SetVal? && Unsubtractable(Lookup(c.sent, Name(f)))
    ensures GetDeltaForModel(c, exclude).result.Err? ==> GetDeltaForModel(c, exclude).result.error == TypeError
  {
    var pairs := IterFields(c, exclude);
    IterFieldsPairs(c, exclude);
    DiffOk(pairs, map[], c.sent, false);
    forall j | 0 <= j < |pairs| ensures FieldDelta(pairs[j].1, Lookup(c.sent, pairs[j].0)).Err? ==>
                                          exists f :: Name(f) !in exclude && Get(c, f).SetVal? && Unsubtractable(Lookup(c.sent, Name(f)))
    {
      FieldDeltaLaws(pairs[j].1, Lookup(c.sent, pairs[j].0));
      var f := FieldNamed(pairs[j].0).value;
      assert Name(f) == pairs[j].0;
    }
    forall f | Name(f) !in exclude && Get(c, f).SetVal? && Unsubtractable(Lookup(c.sent, Name(f)))
      ensures exists j :: 0 <= j < |pairs| && FieldDelta(pairs[j].1, Lookup(c.sent, pairs[j].0)).Err?
    {
      var j :| 0 <= j < |pairs| && pairs[j] == (Name(f), Get(c, f));
      FieldDeltaLaws(Get(c, f), Lookup(c.sent, Name(f)));
    }
    DeltaErrorIsTypeError(pairs, map[], c.sent);
  }

  lemma {:induction false} DeltaErrorIsTypeError(pairs: seq<(string, Value)>, delta: map<string, Value>, sent: map<string, Value>)
    ensures Diff(pairs, delta, sent, false).result.Err? ==> Diff(pairs, delta, sent, false).result.error == TypeError
    decreases |pairs|
  {
    if pairs != [] {
      var k := pairs[0].0;
      FieldDeltaLaws(pairs[0].1, Lookup(sent, k));
      match FieldDelta(pairs[0].1, Lookup(sent, k))
      case Err(e) =>
      case Ok(st) =>
        DeltaErrorIsTypeError(pairs[1..],
                              if st.entry.Some? then delta[k := st.entry.value] else delta,
                              if st.baseline.Some? then sent[k := st.baseline.value] else sent);
    }
  }

  /** After a successful call, every non-excluded set field's baseline is its value, and
      its delta entry is the step's: the new members when there are any, else the whole
      value when it differs from the old baseline, else nothing. */
  lemma DeltaSetFields(c: Context, exclude: set<string>, f: Field)
    requires Name(f) !in exclude && Get(c, f).SetVal?
    ensures var d := GetDeltaForModel(c, exclude);
            var v, prev := Get(c, f), Lookup(c.sent, Name(f));
            d.result.Ok? ==>
              && !Unsubtractable(prev)
              && Lookup(d.after.sent, Name(f)) == Some(v)
              && Lookup(d.result.value, Name(f))
                 == (var n := v.members - SetBaseline(prev).value;
                     if n != {} then Some(SetVal(n)) else if prev != Some(v) then Some(v) else None)
  {
    var pairs := IterFields(c, exclude);
    IterFieldsPairs(c, exclude);
    DiffFields(pairs, map[], c.sent, false);
    var j :| 0 <= j < |pairs| && pairs[j] == (Name(f), Get(c, f));
    FieldDeltaLaws(Get(c, f), Lookup(c.sent, Name(f)));
  }

  /** Idempotence: straight after a successful call, a second call reports nothing and
      leaves the baseline as it is. */
  lemma DeltaIdempotent(c: Context, exclude: set<string>)
    requires GetDeltaForModel(c, exclude).result.Ok?
    ensures var d := GetDeltaForModel(c, exclude);
            GetDeltaForModel(d.after, exclude) == Delta(Ok(map[]), d.after)
  {
    var d := GetDeltaForModel(c, exclude);
    var pairs := IterFields(c, exclude);
    IterFieldsPairs(c, exclude);
    assert IterFields(d.after, exclude) == pairs;
    DiffFields(pairs, map[], c.sent, false);
    forall j | 0 <= j < |pairs| ensures FieldDelta(pairs[j].1, Lookup(d.after.sent, pairs[j].0)) == Ok(Untouched) {
      var v, prev := pairs[j].1, Lookup(c.sent, pairs[j].0);
      FieldDeltaLaws(v, prev);
      FieldDeltaLaws(v, Lookup(d.after.sent, pairs[j].0));
    }
    DiffQuiet(pairs, map[], d.after.sent, false);
  }

  // ---------------------------------------------------------------------------
  // The intended delta

  /** All members of a set or items of a list. */
  function ValueElems(v: Value): set<Item> {
    Elems(Some(v))
  }

  lemma {:induction false} UnseenAllSeen(l: seq<Item>, seen: set<Item>)
    requires forall j :: 0 <= j < |l| ==> l[j] in seen
    ensures Unseen(l, seen) == []
    decreases |l|
  {
    if l != [] {
      assert forall j :: 0 <= j < |l| - 1 ==> l[1..][j] == l[j + 1];
      UnseenAllSeen(l[1..], seen);
    }
  }

  lemma {:induction false} UnseenSubset(l: seq<Item>, seen: set<Item>)
    ensures forall j :: 0 <= j < |Unseen(l, seen)| ==> Unseen(l, seen)[j] in l
    decreases |l|
  {
    if l != [] {
      UnseenSubset(l[1..], seen);
      var r := Unseen(l, seen);
      var h: seq<Item> := if l[0] in seen then [] else [l[0]];
      forall j | 0 <= j < |r| ensures r[j] in l {
        if j >= |h| {
          assert r[j] == Unseen(l[1..], seen)[j - |h|];
          assert r[j] in l[1..];
        }
      }
    }
  }

  /** The intended step: what it reports is new with respect to the old baseline, nothing
      in the value is lost between the old baseline and the report, the new baseline holds
      the whole value, and a second step against the new baseline reports nothing. */
  lemma FieldDeltaIntendedLaws(v: Value, prev: Option<Value>)
    ensures var st := FieldDeltaIntended(v, prev);
            && FieldDeltaIntended(v, Or(st.baseline, prev)) == Untouched
            && (!v.Scalar? ==> ValueElems(v) <= Elems(prev) + Elems(st.entry))
            && (!v.Scalar? ==> ValueElems(v) <= Elems(Or(st.baseline, prev)))
            && (!v.Scalar? ==> Elems(st.entry) * Elems(prev) == {} && Elems(st.entry) <= ValueElems(v))
            && (v.Scalar? ==> Or(st.baseline, prev) == Some(v))
  {
    var st := FieldDeltaIntended(v, prev);
    match v
    case SetVal(m) =>
    case Scalar(_) =>
    case ListVal(l) =>
      var n := Unseen(l, Elems(prev));
      UnseenSubset(l, Elems(prev));
      UnseenAllSeen(l, ValueElems(v));
      if n == [] {
        forall x | x in ValueElems(v) ensures x in Elems(prev) {
          var j :| 0 <= j < |l| && l[j] == x;
          assert l[j] !in n;
        }
        UnseenAllSeen(l, Elems(prev));
      } else {
        forall x | x in ValueElems(v) ensures x in Elems(prev) + Elems(st.entry) {
          var j :| 0 <= j < |l| && l[j] == x;
          if x !in Elems(prev) {
            assert x in n;
            var k :| 0 <= k < |n| && n[k] == x;
          }
        }
        forall x | x in Elems(st.entry) ensures x !in Elems(prev) && x in ValueElems(v) {
          var k :| 0 <= k < |n| && n[k] == x;
          assert n[k] in l;
          var j :| 0 <= j < |l| && l[j] == x;
        }
      }
  }

  /** The intended call never fails. */
  lemma IntendedNeverFails(c: Context, exclude: set<string>)
    ensures GetDeltaIntended(c, exclude).result.Ok?
  {
    var pairs := IterFields(c, exclude);
    IterFieldsPairs(c, exclude);
    DiffOk(pairs, map[], c.sent, true);
  }

  /** With the intended branches, every non-excluded set or list field is fully covered:
      each of its items was in the old baseline or is in this delta, the delta holds only
      items the old baseline lacked, and the new baseline holds every item. */
  lemma IntendedCovers(c: Context, exclude: set<string>, f: Field)
    requires Name(f) !in exclude && !Get(c, f).Scalar?
    ensures var d := GetDeltaIntended(c, exclude);
            var prev := Lookup(c.sent, Name(f));
            && d.result.Ok?
            && ValueElems(Get(c, f)) <= Elems(prev) + Elems(Lookup(d.result.value, Name(f)))
            && Elems(Lookup(d.result.value, Name(f))) * Elems(prev) == {}
            && ValueElems(Get(c, f)) <= Elems(Lookup(d.after.sent, Name(f)))
  {
    var pairs := IterFields(c, exclude);
    IterFieldsPairs(c, exclude);
    IntendedNeverFails(c, exclude);
    DiffFields(pairs, map[], c.sent, true);
    var j :| 0 <= j < |pairs| && pairs[j] == (Name(f), Get(c, f));
    FieldDeltaIntendedLaws(Get(c, f), Lookup(c.sent, Name(f)));
  }

  /** Idempotence of the intended call: a second call reports nothing. */
  lemma IntendedIdempotent(c: Context, exclude: set<string>)
    ensures var d := GetDeltaIntended(c, exclude);
            GetDeltaIntended(d.after, exclude) == Delta(Ok(map[]), d.after)
  {
    var d := GetDeltaIntended(c, exclude);
    var pairs := IterFields(c, exclude);
    IterFieldsPairs(c, exclude);
    IntendedNeverFails(c, exclude);
    assert IterFields(d.after, exclude) == pairs;
    DiffFields(pairs, map[], c.sent, true);
    forall j | 0 <= j < |pairs| ensures StepFor(true, pairs[j].1, Lookup(d.after.sent, pairs[j].0)) == Ok(Untouched) {
      FieldDeltaIntendedLaws(pairs[j].1, Lookup(c.sent, pairs[j].0));
    }
    DiffQuiet(pairs, map[], d.after.sent, true);
  }

  // ---------------------------------------------------------------------------
  // The dead list branch, on an example

  /** As written, a context whose fields hold no set reports nothing and keeps its
      baseline, however much was appended. */
  lemma AsWrittenNoSetsNoDelta(c: Context, exclude: set<string>)
    requires forall f :: !Get(c, f).SetVal?
    ensures GetDeltaForModel(c, exclude) == Delta(Ok(map[]), c)
  {
    var pairs := IterFields(c, exclude);
    IterFieldsPairs(c, exclude);
    forall j | 0 <= j < |pairs| ensures FieldDelta(pairs[j].1, Lookup(c.sent, pairs[j].0)) == Ok(Untouched) {
      FieldDeltaLaws(pairs[j].1, Lookup(c.sent, pairs[j].0));
    }
    DiffQuiet(pairs, map[], c.sent, false);
  }

  /** An executed query appended to a fresh context never reaches the model as written. */
  lemma ExecutedQueryNeverSent(q: string)
    requires !IsBlank(q)
    ensures AppendExecuted(Fresh(), q).Ok?
    ensures var c := AppendExecuted(Fresh(), q).value;
            GetDeltaForModel(c, DefaultExclude) == Delta(Ok(map[]), c)
  {
    AsWrittenNoSetsNoDelta(AppendExecuted(Fresh(), q).value, DefaultExclude);
  }

  lemma LookupExtensional(a: map<string, Value>, b: map<string, Value>)
    requires forall k :: Lookup(a, k) == Lookup(b, k)
    ensures a == b
  {
    assert a.Keys == b.Keys by {
      forall k ensures k in a <==> k in b { assert Lookup(a, k).Some? <==> Lookup(b, k).Some?; }
    }
    forall k | k in a ensures a[k] == b[k] { assert Lookup(a, k) == Lookup(b, k); }
  }

  /** With the intended branches the same query is reported, once. */
  lemma ExecutedQuerySentIntended(q: string)
    requires !IsBlank(q)
    ensures AppendExecuted(Fresh(), q).Ok?
    ensures var c := AppendExecuted(Fresh(), q).value;
            GetDeltaIntended(c, DefaultExclude).result == Ok(map["executed_sql_queries" := ListVal([Str(Collapse(q))])])
  {
    var c := AppendExecuted(Fresh(), q).value;
    OnlyExecutedReported(c, Str(Collapse(q)), DefaultExclude);
  }

  /** A context whose only item is one executed query reports exactly that query. */
  lemma OnlyExecutedReported(c: Context, x: Item, exclude: set<string>)
    requires Name(ExecutedSqlQueries) !in exclude
    requires forall f :: f != ExecutedSqlQueries ==> Get(c, f) == ListVal([])
    requires c.executedSqlQueries == ListVal([x]) && c.sent == map[]
    ensures GetDeltaIntended(c, exclude).result == Ok(map[Name(ExecutedSqlQueries) := ListVal([x])])
  {
    var pairs := IterFields(c, exclude);
    var k := Name(ExecutedSqlQueries);
    IterFieldsPairs(c, exclude);
    assert Unseen([x], {}) == [x];
    forall j | 0 <= j < |pairs| && pairs[j].0 != k ensures StepFor(true, pairs[j].1, Lookup(map[], pairs[j].0)) == Ok(Untouched) {
      assert FieldNamed(pairs[j].0).value != ExecutedSqlQueries;
    }
    var j :| 0 <= j < |pairs| && pairs[j] == (k, Get(c, ExecutedSqlQueries));
    DiffSingle(pairs, map[], map[], true, k, ListVal([x]), j);
  }

  /** A loop in which one name reports `v` and every other name changes nothing returns
      the delta with that one entry added. */
  lemma {:induction false} DiffSingle(pairs: seq<(string, Value)>, delta: map<string, Value>, sent: map<string, Value>,
                                      intended: bool, k: string, v: Value, i: nat)
    requires DistinctNames(pairs)
    requires forall j :: 0 <= j < |pairs| && pairs[j].0 != k ==> StepFor(intended, pairs[j].1, Lookup(sent, pairs[j].0)) == Ok(Untouched)
    requires i < |pairs| && pairs[i].0 == k
    requires StepFor(intended, pairs[i].1, Lookup(sent, k)).Ok? && StepFor(intended, pairs[i].1, Lookup(sent, k)).value.entry == Some(v)
    ensures Diff(pairs, delta, sent, intended).result == Ok(delta[k := v])
    decreases |pairs|
  {
    NamesTail(pairs);
    var t := pairs[1..];
    assert forall j :: 0 <= j < |t| ==> t[j] == pairs[j + 1];
    if i == 0 {
      var st := StepFor(intended, pairs[0].1, Lookup(sent, k)).value;
      var sent' := if st.baseline.Some? then sent[k := st.baseline.value] else sent;
      forall j | 0 <= j < |t| ensures StepFor(intended, t[j].1, Lookup(sent', t[j].0)) == Ok(Untouched) {
        assert t[j].0 in Names(t);
        assert Lookup(sent', t[j].0) == Lookup(sent, t[j].0);
      }
      DiffQuiet(t, delta[k := v], sent', intended);
    } else {
      DiffSingle(t, delta, sent, intended, k, v, i - 1);
    }
  }

}
