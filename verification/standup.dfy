/** The standup bot's event engine: the two insertion-ordered sequences of
    updates and blockers, the `message` handler that records updates, and
    the `app_mention` handler that answers "summary" and "blockers" queries.
    Events are applied one at a time; the outbound `chat.postMessage` call
    is the `Post` a handler returns. */
module Standup {
  import opened Wrappers
  import opened Text
  import opened Sequences

  /** One status report: who posted it and what they wrote. */
  datatype Update = Update(user: string, text: string)

  /** The module state: every recorded update, and the ones flagged as
      blockers, both in arrival order. */
  datatype State = State(updates: seq<Update>, blockers: seq<Update>)

  /** The state at start-up: both sequences empty. */
  const Init := State([], [])

  /** A `message` event; `text` is absent for events without a body. */
  datatype Message = Message(user: string, text: Option<string>)

  /** An `app_mention` event addressed to the bot from `channel`. */
  datatype Mention = Mention(text: Option<string>, channel: string)

  datatype Event = MessageEvent(msg: Message) | MentionEvent(mention: Mention)

  /** An outbound `chat.postMessage` call. */
  datatype Post = Post(channel: string, text: string)

  const BlockerWord := "blockers"
  const SummaryWord := "summary"
  const SummaryHeader := "Here is the summary of updates:\n"
  const NoUpdates := "No updates yet"
  const BlockersHeader := "Here are the reported blockers: \n"
  const NoBlockers := "No blockers reported"

  // ---------------------------------------------------------------------
  // Message ingestion

  /** JavaScript truthiness of an optional string: present and non-empty. */
  predicate Truthy(text: Option<string>) {
    text.Some? && text.value != ""
  }

  /** A message reports a blocker when its lower-cased text contains
      "blockers". */
  predicate IsBlockerText(text: string) {
    Includes(Lower(text), BlockerWord)
  }

  /** The blocker test is a case-insensitive search for "blockers". */
  lemma IsBlockerTextIff(text: string)
    ensures IsBlockerText(text) <==> exists i :: OccursIgnoringCaseAt(text, BlockerWord, i)
  {
    IncludesLowerIff(text, BlockerWord);
  }

  /** The `message` handler. A message with text appends `{user, text}` to
      the updates and, when it mentions blockers, appends that same record
      to the blockers; a message without text changes nothing. */
  function OnMessage(s: State, m: Message): (s': State)
    ensures Truthy(m.text) ==> s'.updates == s.updates + [Update(m.user, m.text.value)]
    ensures Truthy(m.text) && IsBlockerText(m.text.value) ==>
              s'.blockers == s.blockers + [s'.updates[|s'.updates| - 1]]
    ensures Truthy(m.text) && !IsBlockerText(m.text.value) ==> s'.blockers == s.blockers
    ensures !Truthy(m.text) ==> s' == s
  {
    if Truthy(m.text) then
      var u := Update(m.user, m.text.value);
      State(s.updates + [u], if IsBlockerText(u.text) then s.blockers + [u] else s.blockers)
    else s
  }

  // ---------------------------------------------------------------------
  // Mention classification and rendering

  /** What a mention asks for; the first matching keyword wins. */
  datatype Query = AskSummary | AskBlockers | NoQuery

  /** Case-sensitive classification of a mention's text: "summary" is
      checked before "blockers". */
  function Classify(text: string): Query {
    if Includes(text, SummaryWord) then AskSummary
    else if Includes(text, BlockerWord) then AskBlockers
    else NoQuery
  }

  /** Classification in terms of where the keywords occur: a summary
      request whenever "summary" occurs, a blockers request when only
      "blockers" does, and nothing when neither does. */
  lemma ClassifyIff(text: string)
    ensures Classify(text) == AskSummary <==> exists i :: OccursAt(text, SummaryWord, i)
    ensures Classify(text) == AskBlockers <==>
              (!exists i :: OccursAt(text, SummaryWord, i)) && exists i :: OccursAt(text, BlockerWord, i)
    ensures Classify(text) == NoQuery <==>
              (!exists i :: OccursAt(text, SummaryWord, i)) && !exists i :: OccursAt(text, BlockerWord, i)
  {
    IncludesIff(text, SummaryWord);
    IncludesIff(text, BlockerWord);
  }

  /** One rendered line: `<@user>: text`. */
  function RenderLine(u: Update): string {
    "<@" + u.user + ">: " + u.text
  }

  /** The rendered line of each update, in order. */
  function Lines(us: seq<Update>): seq<string> {
    seq(|us|, i requires 0 <= i < |us| => RenderLine(us[i]))
  }

  /** The updates rendered one per line, joined with newlines. */
  function Render(us: seq<Update>): string {
    Join(Lines(us), "\n")
  }

  /** The rendering is empty exactly when there is nothing to render. */
  lemma RenderEmptyIff(us: seq<Update>)
    ensures Render(us) == "" <==> |us| == 0
  {
    JoinEmptyIff(Lines(us), "\n");
    if |us| == 1 {
      assert Lines(us)[0] == RenderLine(us[0]);
    }
  }

  /** A new update adds exactly one line at the end of the rendering:
      the first update's line is the whole rendering, and every later one
      comes after a newline. */
  lemma RenderSnoc(us: seq<Update>, u: Update)
    ensures |us| == 0 ==> Render(us + [u]) == RenderLine(u)
    ensures |us| > 0 ==> Render(us + [u]) == Render(us) + "\n" + RenderLine(u)
  {
    assert Lines(us + [u]) == Lines(us) + [RenderLine(u)];
    if |us| > 0 {
      JoinSnoc(Lines(us), RenderLine(u), "\n");
    }
  }

  /** When no user or text contains a newline, the rendering splits back
      into exactly one line per update, in order. */
  lemma RenderSplitsIntoLines(us: seq<Update>)
    requires |us| > 0
    requires forall i :: 0 <= i < |us| ==> '\n' !in us[i].user && '\n' !in us[i].text
    ensures Split(Render(us), '\n') == Lines(us)
    ensures |Split(Render(us), '\n')| == |us|
  {
    forall i | 0 <= i < |us| ensures '\n' !in Lines(us)[i] {
      assert Lines(us)[i] == "<@" + us[i].user + ">: " + us[i].text;
    }
    SplitJoin(Lines(us), '\n');
  }

  /** A reply: the header followed by the rendering, or by the fallback
      when the rendering is empty (`rendered || fallback`). */
  function Reply(header: string, fallback: string, us: seq<Update>): (r: string)
    ensures |us| == 0 ==> r == header + fallback
    ensures |us| > 0 ==> r == header + Render(us)
  {
    RenderEmptyIff(us);
    header + OrElse(Render(us), fallback)
  }

  /** The `app_mention` handler: a summary request posts the updates, a
      blockers request posts the blockers, both to the mention's channel;
      any other mention posts nothing. A mention without text posts
      nothing either (the source's `event.text.includes` throws inside the
      asynchronous handler before anything is sent). */
  function OnMention(s: State, m: Mention): (out: Option<Post>)
    ensures m.text.None? ==> out == None
    ensures m.text.Some? && Classify(m.text.value) == AskSummary ==>
              out == Some(Post(m.channel, Reply(SummaryHeader, NoUpdates, s.updates)))
    ensures m.text.Some? && Classify(m.text.value) == AskBlockers ==>
              out == Some(Post(m.channel, Reply(BlockersHeader, NoBlockers, s.blockers)))
    ensures out.Some? <==> m.text.Some? && Classify(m.text.value) != NoQuery
  {
    match m.text
    case None => None
    case Some(text) =>
      match Classify(text)
      case AskSummary => Some(Post(m.channel, Reply(SummaryHeader, NoUpdates, s.updates)))
      case AskBlockers => Some(Post(m.channel, Reply(BlockersHeader, NoBlockers, s.blockers)))
      case NoQuery => None
  }

  /** A mention whose text contains both keywords is a summary request. */
  lemma SummaryTakesPrecedence(s: State, m: Mention)
    requires m.text.Some?
    requires exists i :: OccursAt(m.text.value, SummaryWord, i)
    requires exists i :: OccursAt(m.text.value, BlockerWord, i)
    ensures OnMention(s, m) == Some(Post(m.channel, Reply(SummaryHeader, NoUpdates, s.updates)))
  {
    ClassifyIff(m.text.value);
  }

  /** A new update changes the summary reply to any summary request by
      that update's line: on an empty log the line replaces the fallback,
      otherwise it is added at the end after a newline. */
  lemma SummaryGrowsByOneLine(s: State, m: Message, q: string, channel: string)
    requires Truthy(m.text) && Classify(q) == AskSummary
    ensures |s.updates| == 0 ==>
              OnMention(OnMessage(s, m), Mention(Some(q), channel))
              == Some(Post(channel, SummaryHeader + RenderLine(Update(m.user, m.text.value))))
    ensures |s.updates| > 0 ==>
              OnMention(OnMessage(s, m), Mention(Some(q), channel))
              == Some(Post(channel, Reply(SummaryHeader, NoUpdates, s.updates) + "\n"
                                    + RenderLine(Update(m.user, m.text.value))))
  {
    var u := Update(m.user, m.text.value);
    var us := OnMessage(s, m).updates;
    assert us == s.updates + [u];
    if |s.updates| == 0 {
      assert us == [u];
      assert Lines([u]) == [RenderLine(u)];
      assert Reply(SummaryHeader, NoUpdates, us) == SummaryHeader + RenderLine(u);
    } else {
      RenderSnoc(s.updates, u);
      calc {
        Reply(SummaryHeader, NoUpdates, us);
        SummaryHeader + Render(us);
        SummaryHeader + (Render(s.updates) + "\n" + RenderLine(u));
        Reply(SummaryHeader, NoUpdates, s.updates) + "\n" + RenderLine(u);
      }
    }
  }

  // ---------------------------------------------------------------------
  // Dispatch

  /** One event: a message changes the state and posts nothing; a mention
      leaves the state alone and may post a reply. Either way the two
      sequences only grow at their ends. */
  function Step(s: State, e: Event): (r: (State, Option<Post>))
    ensures e.MentionEvent? ==> r.0 == s
    ensures e.MessageEvent? ==> r.1 == None
    ensures s.updates <= r.0.updates && s.blockers <= r.0.blockers
  {
    match e
    case MessageEvent(m) => (OnMessage(s, m), None)
    case MentionEvent(m) => (s, OnMention(s, m))
  }

  /** Events applied in arrival order: the final state and every post made.
      Earlier updates and blockers are never changed or removed. */
  function Run(s: State, events: seq<Event>): (r: (State, seq<Post>))
    ensures s.updates <= r.0.updates && s.blockers <= r.0.blockers
    ensures |r.1| <= |events|
    decreases |events|
  {
    if |events| == 0 then (s, [])
    else
      var before := Run(s, events[..|events| - 1]);
      var last := Step(before.0, events[|events| - 1]);
      (last.0, before.1 + (if last.1.Some? then [last.1.value] else []))
  }

  // ---------------------------------------------------------------------
  // Reference definitions and the invariant

  /** The record an event contributes to the updates, if any. */
  function RecordOf(e: Event): seq<Update> {
    match e
    case MessageEvent(m) => if Truthy(m.text) then [Update(m.user, m.text.value)] else []
    case MentionEvent(_) => []
  }

  /** The records of all messages with text, in arrival order. */
  function Recorded(events: seq<Event>): seq<Update>
    decreases |events|
  {
    if |events| == 0 then []
    else Recorded(events[..|events| - 1]) + RecordOf(events[|events| - 1])
  }

  /** The updates whose text reports a blocker, in order. */
  function Flagged(us: seq<Update>): seq<Update>
    decreases |us|
  {
    if |us| == 0 then []
    else
      var u := us[|us| - 1];
      Flagged(us[..|us| - 1]) + (if IsBlockerText(u.text) then [u] else [])
  }

  /** Filtering distributes over concatenation. */
  lemma {:induction false} FlaggedAppend(a: seq<Update>, b: seq<Update>)
    ensures Flagged(a + b) == Flagged(a) + Flagged(b)
    decreases |b|
  {
    if |b| > 0 {
      var b' := b[..|b| - 1];
      assert (a + b)[..|a + b| - 1] == a + b';
      FlaggedAppend(a, b');
    } else {
      assert a + b == a;
    }
  }

  /** The filtered updates are an order-preserving subsequence of them. */
  lemma {:induction false} FlaggedIsSubsequence(us: seq<Update>)
    ensures IsSubsequence(Flagged(us), us)
    decreases |us|
  {
    if |us| > 0 {
      var us' := us[..|us| - 1];
      var u := us[|us| - 1];
      assert us == us' + [u];
      FlaggedIsSubsequence(us');
      if IsBlockerText(u.text) {
        SubsequenceExtendBoth(Flagged(us'), us', u);
      } else {
        assert Flagged(us) == Flagged(us');
        SubsequenceExtend(Flagged(us'), us', u);
      }
    }
  }

  /** The invariant of the module state: the blockers are exactly the
      updates whose text reports a blocker. */
  ghost predicate Consistent(s: State) {
    s.blockers == Flagged(s.updates)
  }

  lemma InitConsistent()
    ensures Consistent(Init)
  {
  }

  /** Every message event keeps the invariant. */
  lemma OnMessagePreservesConsistent(s: State, m: Message)
    requires Consistent(s)
    ensures Consistent(OnMessage(s, m))
  {
    if Truthy(m.text) {
      var u := Update(m.user, m.text.value);
      FlaggedAppend(s.updates, [u]);
    }
  }

  /** A consistent state's blockers are an order-preserving subsequence of
      its updates, so every blocker is also an update. */
  lemma ConsistentBlockersAreUpdates(s: State)
    requires Consistent(s)
    ensures IsSubsequence(s.blockers, s.updates)
    ensures forall b :: b in s.blockers ==> b in s.updates
  {
    FlaggedIsSubsequence(s.updates);
    SubsequenceMembers(s.blockers, s.updates);
  }

  /** One event appends its record, if any, to the updates, and the record
      again to the blockers when it reports a blocker. */
  lemma StepAppendsRecord(s: State, e: Event)
    ensures Step(s, e).0.updates == s.updates + RecordOf(e)
    ensures Step(s, e).0.blockers == s.blockers + Flagged(RecordOf(e))
  {
    if e.MessageEvent? && Truthy(e.msg.text) {
      var u := Update(e.msg.user, e.msg.text.value);
      assert [u][..0] == [];
      assert Flagged([u]) == (if IsBlockerText(u.text) then [u] else []);
    }
  }

  /** Running events appends the records of their messages with text to
      the updates, in order. */
  lemma {:induction false} RunAppendsUpdates(s: State, events: seq<Event>)
    ensures Run(s, events).0.updates == s.updates + Recorded(events)
    decreases |events|
  {
    if |events| > 0 {
      var front, e := events[..|events| - 1], events[|events| - 1];
      assert events == front + [e];
      RunSnoc(s, front, e);
      RunAppendsUpdates(s, front);
      StepAppendsRecord(Run(s, front).0, e);
    }
  }

  /** Running events appends the blocker-reporting records among them to
      the blockers, in order. */
  lemma {:induction false} RunAppendsBlockers(s: State, events: seq<Event>)
    ensures Run(s, events).0.blockers == s.blockers + Flagged(Recorded(events))
    decreases |events|
  {
    if |events| > 0 {
      var front, e := events[..|events| - 1], events[|events| - 1];
      assert events == front + [e];
      RunSnoc(s, front, e);
      RunAppendsBlockers(s, front);
      StepAppendsRecord(Run(s, front).0, e);
      FlaggedAppend(Recorded(front), RecordOf(e));
    }
  }

  /** From start-up, the updates are the records of the messages with text
      in arrival order, one per such message, and the invariant holds, so
      the blockers are a subsequence of the updates. */
  lemma RunFromInit(events: seq<Event>)
    ensures Run(Init, events).0.updates == Recorded(events)
    ensures Consistent(Run(Init, events).0)
    ensures IsSubsequence(Run(Init, events).0.blockers, Run(Init, events).0.updates)
  {
    RunAppendsUpdates(Init, events);
    InitConsistent();
    RunPreservesConsistent(Init, events);
    ConsistentBlockersAreUpdates(Run(Init, events).0);
  }

  /** Every run of events from a consistent state ends in a consistent
      state: the invariant holds after each event. */
  lemma {:induction false} RunPreservesConsistent(s: State, events: seq<Event>)
    requires Consistent(s)
    ensures Consistent(Run(s, events).0)
    decreases |events|
  {
    if |events| > 0 {
      var front, e := events[..|events| - 1], events[|events| - 1];
      assert events == front + [e];
      RunSnoc(s, front, e);
      RunPreservesConsistent(s, front);
      if e.MessageEvent? {
        OnMessagePreservesConsistent(Run(s, front).0, e.msg);
      }
    }
  }

  /** When every event is a message with text, there is one update per
      event, carrying that event's user and text, in arrival order. */
  lemma {:induction false} RecordedMessages(events: seq<Event>)
    requires forall i :: 0 <= i < |events| ==> events[i].MessageEvent? && Truthy(events[i].msg.text)
    ensures |Recorded(events)| == |events|
    ensures forall i :: 0 <= i < |events| ==>
              Recorded(events)[i] == Update(events[i].msg.user, (assert Truthy(events[i].msg.text); events[i].msg.text.value))
    decreases |events|
  {
    if |events| > 0 {
      RecordedMessages(events[..|events| - 1]);
    }
  }

  // ---------------------------------------------------------------------
  // A worked scenario

  /** Running one more event is one more step after the earlier ones. */
  lemma RunSnoc(s: State, events: seq<Event>, e: Event)
    ensures Run(s, events + [e]).0 == Step(Run(s, events).0, e).0
    ensures Run(s, events + [e]).1 == Run(s, events).1 + (
              var out := Step(Run(s, events).0, e).1; if out.Some? then [out.value] else [])
  {
    assert (events + [e])[..|events|] == events;
  }

  /** Two messages with text, only the second reporting a blocker: both
      are updates, the second is the one blocker, and nothing is posted. */
  lemma TwoUpdates(t1: string, t2: string)
    requires t1 != "" && t2 != "" && !IsBlockerText(t1) && IsBlockerText(t2)
    ensures
      var events := [MessageEvent(Message("U1", Some(t1))), MessageEvent(Message("U2", Some(t2)))];
      && Run(Init, events).0 == State([Update("U1", t1), Update("U2", t2)], [Update("U2", t2)])
      && Run(Init, events).1 == []
  {
    var u1, u2 := Update("U1", t1), Update("U2", t2);
    var e1, e2 := MessageEvent(Message("U1", Some(t1))), MessageEvent(Message("U2", Some(t2)));
    RunSnoc(Init, [], e1);
    assert [] + [e1] == [e1];
    assert Run(Init, []) == (Init, []);
    assert Step(Init, e1).0 == State([u1], []);
    assert Run(Init, [e1]).0 == State([u1], []) && Run(Init, [e1]).1 == [];
    RunSnoc(Init, [e1], e2);
    assert [e1] + [e2] == [e1, e2];
    assert Step(State([u1], []), e2).0 == State([u1, u2], [u2]);
  }

  /** The rendered line of a scenario update. */
  lemma ScenarioLine(user: string, t: string)
    requires user == "U1" || user == "U2"
    ensures user == "U1" ==> RenderLine(Update(user, t)) == "<@U1>: " + t
    ensures user == "U2" ==> RenderLine(Update(user, t)) == "<@U2>: " + t
  {
    assert "<@" + "U1" + ">: " == "<@U1>: ";
    assert "<@" + "U2" + ">: " == "<@U2>: ";
  }

  /** A summary query against the scenario state lists both updates. */
  lemma TwoUpdatesSummary(t1: string, t2: string, q: string, c: string)
    requires Classify(q) == AskSummary
    ensures
      var s := State([Update("U1", t1), Update("U2", t2)], [Update("U2", t2)]);
      OnMention(s, Mention(Some(q), c))
        == Some(Post(c, SummaryHeader + "<@U1>: " + t1 + "\n<@U2>: " + t2))
  {
    var u1, u2 := Update("U1", t1), Update("U2", t2);
    ScenarioLine("U1", t1);
    ScenarioLine("U2", t2);
    var lines := Lines([u1, u2]);
    assert lines == [RenderLine(u1), RenderLine(u2)];
    assert lines[1..] == [RenderLine(u2)];
    assert Join(lines[1..], "\n") == RenderLine(u2);
    assert Render([u1, u2]) == RenderLine(u1) + "\n" + RenderLine(u2);
    assert "\n" + "<@U2>: " == "\n<@U2>: ";
    var body := SummaryHeader + (("<@U1>: " + t1) + "\n" + ("<@U2>: " + t2));
    assert Reply(SummaryHeader, NoUpdates, [u1, u2]) == body;
    assert body == SummaryHeader + "<@U1>: " + t1 + "\n<@U2>: " + t2;
    var s := State([u1, u2], [u2]);
    assert OnMention(s, Mention(Some(q), c)) == Some(Post(c, Reply(SummaryHeader, NoUpdates, [u1, u2])));
  }

  /** A blockers query against the scenario state lists only the second. */
  lemma TwoUpdatesBlockers(t1: string, t2: string, q: string, c: string)
    requires Classify(q) == AskBlockers
    ensures
      var s := State([Update("U1", t1), Update("U2", t2)], [Update("U2", t2)]);
      OnMention(s, Mention(Some(q), c)) == Some(Post(c, BlockersHeader + "<@U2>: " + t2))
  {
    var u2 := Update("U2", t2);
    ScenarioLine("U2", t2);
    assert Lines([u2]) == [RenderLine(u2)];
    assert Render([u2]) == "<@U2>: " + t2;
    assert Reply(BlockersHeader, NoBlockers, [u2]) == BlockersHeader + ("<@U2>: " + t2);
    assert BlockersHeader + ("<@U2>: " + t2) == BlockersHeader + "<@U2>: " + t2;
    var s := State([Update("U1", t1), u2], [u2]);
    assert OnMention(s, Mention(Some(q), c)) == Some(Post(c, Reply(BlockersHeader, NoBlockers, [u2])));
  }

  /** Two updates, the second reporting a blocker, then a summary request
      and a blockers request from channel `c`: the summary lists both
      updates and the blockers reply lists only the second. */
  lemma TwoUpdatesThenQueries(t1: string, t2: string, q1: string, q2: string, c: string)
    requires t1 != "" && t2 != "" && !IsBlockerText(t1) && IsBlockerText(t2)
    requires Classify(q1) == AskSummary && Classify(q2) == AskBlockers
    ensures
      var events := [
        MessageEvent(Message("U1", Some(t1))),
        MessageEvent(Message("U2", Some(t2))),
        MentionEvent(Mention(Some(q1), c)),
        MentionEvent(Mention(Some(q2), c))];
      Run(Init, events).1 == [
        Post(c, SummaryHeader + "<@U1>: " + t1 + "\n<@U2>: " + t2),
        Post(c, BlockersHeader + "<@U2>: " + t2)]
  {
    var e1, e2 := MessageEvent(Message("U1", Some(t1))), MessageEvent(Message("U2", Some(t2)));
    var e3, e4 := MentionEvent(Mention(Some(q1), c)), MentionEvent(Mention(Some(q2), c));
    var s := State([Update("U1", t1), Update("U2", t2)], [Update("U2", t2)]);
    var p1 := Post(c, SummaryHeader + "<@U1>: " + t1 + "\n<@U2>: " + t2);
    TwoUpdates(t1, t2);
    TwoUpdatesSummary(t1, t2, q1, c);
    TwoUpdatesBlockers(t1, t2, q2, c);
    RunSnoc(Init, [e1, e2], e3);
    assert [e1, e2] + [e3] == [e1, e2, e3];
    assert Run(Init, [e1, e2, e3]).0 == s && Run(Init, [e1, e2, e3]).1 == [p1];
    RunSnoc(Init, [e1, e2, e3], e4);
    assert [e1, e2, e3] + [e4] == [e1, e2, e3, e4];
  }

  /** "@bot summary" is a summary request. */
  lemma SummaryQuery(q: string)
    requires q == "@bot summary"
    ensures Classify(q) == AskSummary
  {
    IncludesIff(q, SummaryWord);
    assert OccursAt(q, SummaryWord, 5);
  }

  /** "@bot blockers" is a blockers request. */
  lemma BlockersQuery(q: string)
    requires q == "@bot blockers"
    ensures Classify(q) == AskBlockers
  {
    IncludesIff(q, SummaryWord);
    MissingCharExcludes(q, SummaryWord, 1);
    IncludesIff(q, BlockerWord);
    assert OccursAt(q, BlockerWord, 5);
  }

  /** The first text of the worked scenario reports no blocker. */
  lemma ScenarioFirstText(t: string)
    requires t == "worked on X"
    ensures !IsBlockerText(t)
  {
    IsBlockerTextIff(t);
    MissingCharExcludes(t, BlockerWord, 0);
  }

  /** The second text of the worked scenario reports a blocker. */
  lemma ScenarioSecondText(t: string)
    requires t == "blocked by deploy issue, blockers"
    ensures IsBlockerText(t)
  {
    IsBlockerTextIff(t);
    assert OccursIgnoringCaseAt(t, BlockerWord, 25);
  }

  /** The worked scenario with its literal texts, in channel "C". */
  lemma WorkedScenario(t1: string, t2: string, q1: string, q2: string)
    requires t1 == "worked on X" && t2 == "blocked by deploy issue, blockers"
    requires q1 == "@bot summary" && q2 == "@bot blockers"
    ensures
      var events := [
        MessageEvent(Message("U1", Some(t1))),
        MessageEvent(Message("U2", Some(t2))),
        MentionEvent(Mention(Some(q1), "C")),
        MentionEvent(Mention(Some(q2), "C"))];
      Run(Init, events).1 == [
        Post("C", "Here is the summary of updates:\n" + "<@U1>: " + t1 + "\n<@U2>: " + t2),
        Post("C", "Here are the reported blockers: \n" + "<@U2>: " + t2)]
  {
    ScenarioFirstText(t1);
    ScenarioSecondText(t2);
    SummaryQuery(q1);
    BlockersQuery(q2);
    TwoUpdatesThenQueries(t1, t2, q1, q2, "C");
  }

  /** The blocker check on messages ignores case: "Blockers" flags a
      message. */
  lemma CapitalisedMessageIsFlagged(text: string)
    requires text == "Blockers: none"
    ensures IsBlockerText(text)
  {
    IsBlockerTextIff(text);
    assert OccursIgnoringCaseAt(text, BlockerWord, 0);
  }

  /** The keyword checks on mentions respect case: "Blockers?" is not a
      query. */
  lemma CapitalisedMentionIsIgnored(text: string)
    requires text == "Blockers?"
    ensures Classify(text) == NoQuery
  {
    IncludesIff(text, SummaryWord);
    MissingCharExcludes(text, SummaryWord, 1);
    IncludesIff(text, BlockerWord);
    forall i | 0 <= i && i + |BlockerWord| <= |text| ensures !OccursAt(text, BlockerWord, i) {
      assert text[i..i + |BlockerWord|][0] == text[i];
    }
  }
}
