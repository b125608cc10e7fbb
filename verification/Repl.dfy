/**
  The command-line loop's conversation history (`input_items`).

  Each accepted line of user input becomes one turn: the user item, then whatever the
  stream of run events appends under the chosen input mode, then the assistant's final
  output. The agent run itself is not modelled: each turn carries the events and the final
  output the run produced for it. Printing, colours and timing are left out.
 */
module Repl {
  import opened Wrappers
  import opened Text

  /** `InputDataMode`. */
  datatype Mode = Tool | Handoff | ToolAndHandoff | NothingElse

  /** `should_append_tool_output`: tool outputs are kept in `tool` and `tool_and_handoff` mode. */
  predicate ShouldAppendToolOutput(m: Mode) {
    m in {Tool, ToolAndHandoff}
  }

  /** `should_append_handoff_args`: handoff arguments are kept in `handoff` and
      `tool_and_handoff` mode. */
  predicate ShouldAppendHandoffArgs(m: Mode) {
    m in {Handoff, ToolAndHandoff}
  }

  /** The two policies mode by mode: `nothing_else` keeps neither, `tool_and_handoff` keeps
      both, and each single mode keeps only its own kind. */
  lemma PolicyTable(m: Mode)
    ensures ShouldAppendToolOutput(m) && ShouldAppendHandoffArgs(m) <==> m == ToolAndHandoff
    ensures !ShouldAppendToolOutput(m) && !ShouldAppendHandoffArgs(m) <==> m == NothingElse
    ensures ShouldAppendToolOutput(m) && !ShouldAppendHandoffArgs(m) <==> m == Tool
    ensures !ShouldAppendToolOutput(m) && ShouldAppendHandoffArgs(m) <==> m == Handoff
  {
  }

  /** An item's content: text, or no value (a run whose final output is `None`). Tool
      outputs and handoff arguments are taken as text. */
  datatype Content = Said(text: string) | NoValue

  datatype Role = User | Assistant

  /** One element of `input_items`: `{"role": ..., "content": ...}`. */
  datatype InputItem = InputItem(role: Role, content: Content)

  /** The run items the stream can carry, by their `type`. */
  datatype RunItem =
    | ToolCallItem
    | ToolCallOutputItem(output: Content)
    | MessageOutputItem
    | HandoffCallItem(arguments: Content)
    | OtherItem

  /** A stream event: raw model output (a text delta or something else), a run item, an
      agent switch, or any other event class. */
  datatype Event = RawResponse(textDelta: bool) | RunItemEvent(item: RunItem) | AgentUpdated | OtherEvent

  /** What one event appends to the history under mode `m`. */
  function Contribution(e: Event, m: Mode): seq<InputItem> {
    match e
    case RunItemEvent(ToolCallOutputItem(o)) =>
      if ShouldAppendToolOutput(m) then [InputItem(Assistant, o)] else []
    case RunItemEvent(HandoffCallItem(a)) =>
      if ShouldAppendHandoffArgs(m) then [InputItem(Assistant, a)] else []
    case _ => []
  }

  /** Everything a stream of events appends, in event order. */
  function Contributions(es: seq<Event>, m: Mode): seq<InputItem>
    decreases |es|
  {
    if es == [] then [] else Contribution(es[0], m) + Contributions(es[1..], m)
  }

  lemma {:induction false} ContributionsSnoc(es: seq<Event>, e: Event, m: Mode)
    ensures Contributions(es + [e], m) == Contributions(es, m) + Contribution(e, m)
    decreases |es|
  {
    if es == [] {
      assert [] + [e] == [e];
    } else {
      assert (es + [e])[0] == es[0];
      assert (es + [e])[1..] == es[1..] + [e];
      ContributionsSnoc(es[1..], e, m);
      SeqAssoc(Contribution(es[0], m), Contributions(es[1..], m), Contribution(e, m));
    }
  }

  /** `handle_stream_events`: walks the events in order and appends, to the history it
      was given, one assistant item per kept tool output or handoff. */
  method HandleStreamEvents(items: seq<InputItem>, events: seq<Event>, m: Mode) returns (out: seq<InputItem>)
    ensures out == items + Contributions(events, m)
  {
    out := items;
    var i := 0;
    while i < |events|
      invariant 0 <= i <= |events|
      invariant out == items + Contributions(events[..i], m)
    {
      StreamStep(items, events, i, m);
      out := out + Contribution(events[i], m);
      i := i + 1;
    }
    assert events[..i] == events;
  }

  /** One more event handled: its contribution goes after the earlier ones. */
  lemma StreamStep(items: seq<InputItem>, events: seq<Event>, i: nat, m: Mode)
    requires i < |events|
    ensures items + Contributions(events[..i], m) + Contribution(events[i], m)
            == items + Contributions(events[..i + 1], m)
  {
    ContributionsSnoc(events[..i], events[i], m);
    assert events[..i + 1] == events[..i] + [events[i]];
    SeqAssoc(items, Contributions(events[..i], m), Contribution(events[i], m));
  }

  predicate IsToolOutput(e: Event) {
    e.RunItemEvent? && e.item.ToolCallOutputItem?
  }

  predicate IsHandoff(e: Event) {
    e.RunItemEvent? && e.item.HandoffCallItem?
  }

  function CountWhere(es: seq<Event>, tool: bool): nat
    decreases |es|
  {
    if es == [] then 0
    else (if (tool && IsToolOutput(es[0])) || (!tool && IsHandoff(es[0])) then 1 else 0) + CountWhere(es[1..], tool)
  }

  /** The stream appends exactly one assistant item per tool output when the tool policy
      holds and one per handoff when the handoff policy holds; nothing else is appended. */
  lemma {:induction false} ContributionsCount(es: seq<Event>, m: Mode)
    ensures |Contributions(es, m)|
            == (if ShouldAppendToolOutput(m) then CountWhere(es, true) else 0)
             + (if ShouldAppendHandoffArgs(m) then CountWhere(es, false) else 0)
    ensures forall j :: 0 <= j < |Contributions(es, m)| ==> Contributions(es, m)[j].role == Assistant
    decreases |es|
  {
    if es != [] {
      ContributionsCount(es[1..], m);
      var c: seq<InputItem>, r: seq<InputItem> := Contribution(es[0], m), Contributions(es[1..], m);
      forall j | 0 <= j < |c + r| ensures (c + r)[j].role == Assistant {
        if j >= |c| { assert (c + r)[j] == r[j - |c|]; }
      }
    }
  }

  /** Raw text, tool calls, messages, agent switches and other events leave the history
      alone, in every mode. */
  lemma {:induction false} NeutralEvents(es: seq<Event>, m: Mode)
    requires forall j :: 0 <= j < |es| ==> !IsToolOutput(es[j]) && !IsHandoff(es[j])
    ensures Contributions(es, m) == []
    decreases |es|
  {
    if es != [] {
      assert forall j :: 0 <= j < |es| - 1 ==> es[1..][j] == es[j + 1];
      NeutralEvents(es[1..], m);
    }
  }

  /** In `nothing_else` mode the stream never touches the history. */
  lemma {:induction false} NothingElseAppendsNothing(es: seq<Event>)
    ensures Contributions(es, NothingElse) == []
    decreases |es|
  {
    if es != [] {
      NothingElseAppendsNothing(es[1..]);
    }
  }

  // ---------------------------------------------------------------------------
  // The turn loop

  /** `EXIT_COMMANDS`. */
  const ExitCommands: set<string> := {"exit", "quit", "stop", "cl"}

  /** `str.lower()` on the characters that can lower-case into an ASCII letter: `A`-`Z`
      and the Kelvin sign. Every other character is kept; Python maps some of them to
      other non-ASCII text, which cannot turn a string into one of the exit words. */
  function LowerChar(c: char): char {
    if 'A' <= c <= 'Z' then (c as int + 32) as char
    else if c == '\U{212A}' then 'k'
    else c
  }

  /** Whether `str.lower()` changes the character, among those `LowerChar` covers. */
  predicate IsUpper(c: char) {
    'A' <= c <= 'Z' || c == '\U{212A}'
  }

  /** The result has the input's length, holds no upper-case character, and differs from
      the input exactly where the input is upper case. */
  function Lower(s: string): (r: string)
    ensures |r| == |s| && forall j :: 0 <= j < |s| ==> r[j] == LowerChar(s[j])
    ensures forall j :: 0 <= j < |r| ==> !IsUpper(r[j])
    ensures forall j :: 0 <= j < |s| ==> (r[j] == s[j] <==> !IsUpper(s[j]))
  {
    seq(|s|, j requires 0 <= j < |s| => LowerChar(s[j]))
  }

  /** Lower-casing twice is lower-casing once. */
  lemma LowerLower(s: string)
    ensures Lower(Lower(s)) == Lower(s)
  {
  }

  /** `user_input.strip().lower() in EXIT_COMMANDS`, peeling the surrounding whitespace
      one character at a time (`IsExitStrip` shows this is the same test). */
  predicate IsExit(line: string)
    decreases |line|
  {
    if |line| > 0 && IsSpace(line[0]) then IsExit(line[1..])
    else if |line| > 0 && IsSpace(line[|line| - 1]) then IsExit(line[..|line| - 1])
    else Lower(line) in ExitCommands
  }

  /** A string with no whitespace at either end is its own `strip()`. */
  lemma StripTight(s: string)
    requires s == [] || (!IsSpace(s[0]) && !IsSpace(s[|s| - 1]))
    ensures Strip(s) == s
  {
    assert LStrip(s) == s;
  }

  lemma {:induction false} IsExitStrip(line: string)
    ensures IsExit(line) <==> Lower(Strip(line)) in ExitCommands
    decreases |line|
  {
    var n := |line|;
    if n > 0 && IsSpace(line[0]) {
      IsExitStrip(line[1..]);
      StripDropFront(line);
    } else if n > 0 && IsSpace(line[n - 1]) {
      IsExitStrip(line[..n - 1]);
      StripDropBack(line);
    } else {
      StripTight(line);
    }
  }

  /** What the runner produced for one turn: its stream events and its `final_output`. */
  datatype Reply = Reply(events: seq<Event>, finalOutput: Content)

  /** One read of `input()`: a line (or `None` for `EOFError`/`KeyboardInterrupt`) and the
      reply the run gives if the line starts a turn. */
  datatype Turn = Turn(line: Option<string>, reply: Reply)

  /** The read ends the loop: end of input, an interrupt, or an exit command. */
  predicate Stops(t: Turn) {
    t.line.None? || IsExit(t.line.value)
  }

  /** The read is skipped: a blank line that is not an exit command. */
  predicate Skipped(t: Turn) {
    !Stops(t) && IsBlank(t.line.value)
  }

  /** What one accepted turn appends: the user item, the stream's items when streaming,
      and the assistant's final output. */
  function Bracket(t: Turn, stream: bool, m: Mode): seq<InputItem>
    requires t.line.Some?
  {
    [InputItem(User, Said(t.line.value))]
    + (if stream then Contributions(t.reply.events, m) else [])
    + [InputItem(Assistant, t.reply.finalOutput)]
  }

  /** The history after reading `turns` one by one (input running out is end of input). */
  function History(turns: seq<Turn>, stream: bool, m: Mode): seq<InputItem>
    decreases |turns|
  {
    if turns == [] || Stops(turns[0]) then []
    else if Skipped(turns[0]) then History(turns[1..], stream, m)
    else Bracket(turns[0], stream, m) + History(turns[1..], stream, m)
  }

  /** One read: a stop ends the history, a skipped line adds nothing, an accepted turn
      adds its bracket. */
  lemma HistoryCons(t: Turn, rest: seq<Turn>, stream: bool, m: Mode)
    ensures History([t] + rest, stream, m)
            == if Stops(t) then []
               else if Skipped(t) then History(rest, stream, m)
               else Bracket(t, stream, m) + History(rest, stream, m)
  {
    assert ([t] + rest)[0] == t;
    assert ([t] + rest)[1..] == rest;
  }

  /** `run_demo_loop`: reads the turns in order until one stops the loop. */
  method RunDemoLoop(turns: seq<Turn>, stream: bool, m: Mode) returns (items: seq<InputItem>)
    ensures items == History(turns, stream, m)
  {
    items := [];
    var i := 0;
    while i < |turns| && !Stops(turns[i])
      invariant 0 <= i <= |turns|
      invariant items + History(turns[i..], stream, m) == History(turns, stream, m)
    {
      var t := turns[i];
      HistoryAt(turns, i, stream, m);
      ghost var rest := History(turns[i + 1..], stream, m);
      if !IsBlank(t.line.value) {
        ghost var before := items;
        items := items + [InputItem(User, Said(t.line.value))];
        if stream {
          items := HandleStreamEvents(items, t.reply.events, m);
        }
        ghost var streamed := if stream then Contributions(t.reply.events, m) else [];
        assert items == before + [InputItem(User, Said(t.line.value))] + streamed by {
          if !stream { AppendNil(items); }
        }
        items := items + [InputItem(Assistant, t.reply.finalOutput)];
        SeqAssoc4(before, [InputItem(User, Said(t.line.value))], streamed, [InputItem(Assistant, t.reply.finalOutput)]);
        SeqAssoc(before, Bracket(t, stream, m), rest);
      }
      i := i + 1;
    }
    if i < |turns| {
      HistoryAt(turns, i, stream, m);
    }
    assert i == |turns| ==> turns[i..] == [];
    AppendNil(items);
  }

  /** The history from turn `i` on, after one read. */
  lemma HistoryAt(turns: seq<Turn>, i: nat, stream: bool, m: Mode)
    requires i < |turns|
    ensures History(turns[i..], stream, m)
            == if Stops(turns[i]) then []
               else if Skipped(turns[i]) then History(turns[i + 1..], stream, m)
               else Bracket(turns[i], stream, m) + History(turns[i + 1..], stream, m)
  {
    assert turns[i..] == [turns[i]] + turns[i + 1..];
    HistoryCons(turns[i], turns[i + 1..], stream, m);
  }

  /** Turns the loop accepts, before the first one that stops it. */
  function Accepted(turns: seq<Turn>): (r: seq<Turn>)
    ensures forall j :: 0 <= j < |r| ==> !Stops(r[j]) && !Skipped(r[j])
    decreases |turns|
  {
    if turns == [] || Stops(turns[0]) then []
    else if Skipped(turns[0]) then Accepted(turns[1..])
    else [turns[0]] + Accepted(turns[1..])
  }

  /** The lines of the turns that read one, as contents. */
  function LinesOf(ts: seq<Turn>): seq<Content>
    decreases |ts|
  {
    if ts == [] then []
    else (if ts[0].line.Some? then [Said(ts[0].line.value)] else []) + LinesOf(ts[1..])
  }

  function UserItems(items: seq<InputItem>): seq<Content>
    decreases |items|
  {
    if items == [] then []
    else (if items[0].role == User then [items[0].content] else []) + UserItems(items[1..])
  }

  lemma {:induction false} UserItemsAppend(a: seq<InputItem>, b: seq<InputItem>)
    ensures UserItems(a + b) == UserItems(a) + UserItems(b)
    decreases |a|
  {
    if a == [] {
      assert a + b == b;
    } else {
      assert (a + b)[0] == a[0];
      assert (a + b)[1..] == a[1..] + b;
      UserItemsAppend(a[1..], b);
      var head := if a[0].role == User then [a[0].content] else [];
      SeqAssoc(head, UserItems(a[1..]), UserItems(b));
    }
  }

  lemma {:induction false} NoUserItems(items: seq<InputItem>)
    requires forall j :: 0 <= j < |items| ==> items[j].role == Assistant
    ensures UserItems(items) == []
    decreases |items|
  {
    if items != [] {
      assert forall j :: 0 <= j < |items| - 1 ==> items[1..][j] == items[j + 1];
      NoUserItems(items[1..]);
    }
  }

  /** The user items of the history are exactly the accepted lines, in order: no blank
      line and no exit command ever enters the history. */
  lemma {:induction false} HistoryUserItems(turns: seq<Turn>, stream: bool, m: Mode)
    ensures UserItems(History(turns, stream, m)) == LinesOf(Accepted(turns))
    decreases |turns|
  {
    if turns != [] && !Stops(turns[0]) {
      var t, rest := turns[0], turns[1..];
      assert turns == [t] + rest;
      HistoryCons(t, rest, stream, m);
      HistoryUserItems(rest, stream, m);
      if !Skipped(t) {
        var user := [InputItem(User, Said(t.line.value))];
        var mid := if stream then Contributions(t.reply.events, m) else [];
        var tail := [InputItem(Assistant, t.reply.finalOutput)];
        ContributionsCount(t.reply.events, m);
        NoUserItems(mid);
        NoUserItems(tail);
        UserItemsAppend(user, mid);
        UserItemsAppend(user + mid, tail);
        assert UserItems(Bracket(t, stream, m)) == [Said(t.line.value)];
        UserItemsAppend(Bracket(t, stream, m), History(rest, stream, m));
        assert Accepted(turns) == [t] + Accepted(rest);
        assert ([t] + Accepted(rest))[1..] == Accepted(rest);
      }
    }
  }

  /** A read that stops the loop leaves the history as the earlier turns made it, and
      nothing after it is read. */
  lemma {:induction false} StopEndsHistory(pre: seq<Turn>, t: Turn, rest: seq<Turn>, stream: bool, m: Mode)
    requires forall j :: 0 <= j < |pre| ==> !Stops(pre[j])
    requires Stops(t)
    ensures History(pre + [t] + rest, stream, m) == History(pre, stream, m)
    decreases |pre|
  {
    if pre == [] {
      assert (pre + [t] + rest)[0] == t;
    } else {
      assert (pre + [t] + rest)[1..] == pre[1..] + [t] + rest;
      StopEndsHistory(pre[1..], t, rest, stream, m);
    }
  }

  /** A blank line is skipped without touching the history. */
  lemma BlankSkipped(t: Turn, rest: seq<Turn>, stream: bool, m: Mode)
    requires t.line.Some? && IsBlank(t.line.value)
    ensures History([t] + rest, stream, m) == History(rest, stream, m)
  {
    IsExitStrip(t.line.value);
    assert Lower(Strip(t.line.value)) == [];
    assert ([t] + rest)[1..] == rest;
  }

  /** An accepted turn adds the user item first and the final output last, with only the
      stream's assistant items (none unless streaming) in between. */
  lemma TurnBracket(t: Turn, rest: seq<Turn>, stream: bool, m: Mode)
    requires !Stops(t) && !Skipped(t)
    ensures var h := History([t] + rest, stream, m);
            var n := |Bracket(t, stream, m)|;
            && n <= |h|
            && h[0] == InputItem(User, Said(t.line.value))
            && h[n - 1] == InputItem(Assistant, t.reply.finalOutput)
            && (forall j :: 0 < j < n - 1 ==> h[j].role == Assistant)
            && (!stream ==> n == 2)
            && h[n..] == History(rest, stream, m)
  {
    assert ([t] + rest)[1..] == rest;
    ContributionsCount(t.reply.events, m);
  }
}
