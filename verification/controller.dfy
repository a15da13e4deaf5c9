/** The branch logic of the chat screen's input hook (`useChatInput`).

    Each handler is a function of the branch on screen, the store and the
    handler's inputs, giving a `Turn`: the branch shown while the reply
    streams, the history sent to the model, and the store, current chat and
    branch shown once the reply has settled.

    The asynchronous reply is an input. A `Reply` records the cumulative
    texts the streaming callback reported and how the stream settled;
    `StreamResponse` computes one from a response. Fresh ids stand for
    `generateUUID`, and one timestamp `now` for a handler's `new Date()` calls. */
module Controller {
  import opened Common
  import opened Text
  import opened Store
  import opened Branches
  import opened Stream

  /** `updateWindowTitle` cuts the first user message to this many characters. */
  const TitleLimit := 40

  /** The index `findIndex(m => m.role === 'user')` returns. */
  function FirstUserIndex(b: seq<Message>): (i: int)
    ensures -1 <= i < |b|
    ensures i >= 0 ==> b[i].role == User
    ensures forall j :: 0 <= j < |b| && (i < 0 || j < i) ==> b[j].role != User
  {
    if b == [] then -1
    else if b[0].role == User then 0
    else
      var k := FirstUserIndex(b[1..]);
      if k < 0 then -1 else k + 1
  }

  /** `updateWindowTitle`: the first user message, cut to 40 characters with
      an ellipsis when longer, or the default title without one. */
  function WindowTitle(branch: seq<Message>): (t: string)
    ensures FirstUserIndex(branch) < 0 ==> t == DefaultTitle
    ensures FirstUserIndex(branch) >= 0 ==>
      StartsWith(t, branch[FirstUserIndex(branch)].content[..Min(TitleLimit, |branch[FirstUserIndex(branch)].content|)])
    ensures FirstUserIndex(branch) >= 0 && |branch[FirstUserIndex(branch)].content| <= TitleLimit ==>
      t == branch[FirstUserIndex(branch)].content
    ensures FirstUserIndex(branch) >= 0 && |branch[FirstUserIndex(branch)].content| > TitleLimit ==>
      |t| == TitleLimit + |Ellipsis|
    ensures FirstUserIndex(branch) >= 0 && |branch[FirstUserIndex(branch)].content| > TitleLimit ==>
      t == branch[FirstUserIndex(branch)].content[..TitleLimit] + Ellipsis
  {
    var i := FirstUserIndex(branch);
    if i < 0 then DefaultTitle
    else
      var content := branch[i].content;
      if |content| > TitleLimit then content[..TitleLimit] + Ellipsis else content
  }

  /** Where the first user message lies once more messages follow a branch:
      in the branch if it has one, else in what follows. */
  lemma {:induction false} FirstUserAppend(b: seq<Message>, more: seq<Message>)
    ensures FirstUserIndex(b) >= 0 ==> FirstUserIndex(b + more) == FirstUserIndex(b)
    ensures FirstUserIndex(b) < 0 ==>
      FirstUserIndex(b + more) == if FirstUserIndex(more) < 0 then -1 else |b| + FirstUserIndex(more)
  {
    if b != [] {
      assert (b + more)[0] == b[0];
      assert (b + more)[1..] == b[1..] + more;
      FirstUserAppend(b[1..], more);
    } else {
      assert b + more == more;
    }
  }

  /** The title depends only on the first user message: messages added after
      it never change the title, and a branch without one takes its title
      from what follows. */
  lemma WindowTitleAppend(b: seq<Message>, more: seq<Message>)
    ensures FirstUserIndex(b) >= 0 ==> WindowTitle(b + more) == WindowTitle(b)
    ensures FirstUserIndex(b) < 0 ==> WindowTitle(b + more) == WindowTitle(more)
  {
    FirstUserAppend(b, more);
    if FirstUserIndex(b) >= 0 {
      assert (b + more)[FirstUserIndex(b)] == b[FirstUserIndex(b)];
    } else if FirstUserIndex(more) >= 0 {
      assert (b + more)[|b| + FirstUserIndex(more)] == more[FirstUserIndex(more)];
    }
  }

  /** What the streaming callbacks leave behind: every cumulative text passed
      to `onUpdate`, and the text the promise resolves with or its error. */
  datatype Reply = Reply(updates: seq<string>, settled: Result<string, StreamError>)

  /** The texts of the chunk events, in order. */
  function ChunkTexts(events: seq<Event>): (cs: seq<string>)
    ensures |cs| <= |events|
  {
    if events == [] then []
    else
      var last := events[|events| - 1];
      ChunkTexts(events[..|events| - 1]) + (if last.OnChunk? then [last.text] else [])
  }

  /** The running concatenations of `cs`: the `k`-th is all of the first `k + 1`. */
  function Cumulative(cs: seq<string>): (r: seq<string>)
    ensures |r| == |cs|
    ensures forall i :: 0 <= i < |cs| ==> r[i] == Concat(cs[..i + 1])
  {
    if cs == [] then []
    else
      var front := cs[..|cs| - 1];
      var r := Cumulative(front) + [Concat(cs)];
      assert forall i :: 0 <= i < |cs| ==> r[i] == Concat(cs[..i + 1]) by {
        forall i | 0 <= i < |cs| ensures r[i] == Concat(cs[..i + 1]) {
          if i < |front| {
            assert front[..i + 1] == cs[..i + 1];
          } else {
            assert cs[..i + 1] == cs;
          }
        }
      }
      r
  }

  /** Each reported text extends the one before: the callback always gets
      everything received so far, never a single delta. */
  lemma CumulativeGrows(cs: seq<string>, i: int)
    requires 0 < i < |cs|
    ensures StartsWith(Cumulative(cs)[i], Cumulative(cs)[i - 1])
    ensures Cumulative(cs)[i] == Cumulative(cs)[i - 1] + cs[i]
  {
    var r := Cumulative(cs);
    var before := cs[..i];
    assert r[i - 1] == Concat(before);
    TakeSnoc(cs, i);
    assert r[i] == Concat(before + [cs[i]]);
    ConcatAppend(before, cs[i]);
    StartsWithAppend(Concat(before), cs[i]);
  }

  /** The callbacks of `streamResponse`: `fullContent += chunk` then
      `onUpdate(fullContent)` per chunk, and the promise settles with the
      stream's terminal event. */
  method Accumulate(events: seq<Event>) returns (r: Reply)
    requires Terminated(events)
    ensures r.updates == Cumulative(ChunkTexts(events))
    ensures events[|events| - 1] == OnComplete ==> r.settled == Success(Concat(ChunkTexts(events)))
    ensures events[|events| - 1].OnError? ==> r.settled == Failure(events[|events| - 1].error)
  {
    var full := "";
    var updates: seq<string> := [];
    var i := 0;
    while i < |events| - 1
      invariant 0 <= i <= |events| - 1
      invariant full == Concat(ChunkTexts(events[..i]))
      invariant updates == Cumulative(ChunkTexts(events[..i]))
    {
      assert !IsTerminal(events[i]);
      ChunkTextsSnoc(events, i);
      ConcatAppend(ChunkTexts(events[..i]), events[i].text);
      CumulativeSnoc(ChunkTexts(events[..i]), events[i].text);
      full := full + events[i].text;
      updates := updates + [full];
      i := i + 1;
    }
    assert ChunkTexts(events) == ChunkTexts(events[..i]) by {
      assert events[..|events| - 1] == events[..i];
    }
    match events[i]
    case OnComplete =>
      r := Reply(updates, Success(full));
    case OnError(e) =>
      r := Reply(updates, Failure(e));
  }

  lemma ChunkTextsSnoc(events: seq<Event>, i: int)
    requires 0 <= i < |events| && events[i].OnChunk?
    ensures ChunkTexts(events[..i + 1]) == ChunkTexts(events[..i]) + [events[i].text]
  {
    assert events[..i + 1][..i] == events[..i];
  }

  lemma CumulativeSnoc(cs: seq<string>, c: string)
    ensures Cumulative(cs + [c]) == Cumulative(cs) + [Concat(cs + [c])]
  {
    assert (cs + [c])[..|cs|] == cs;
  }

  /** The history as the completions endpoint receives it. */
  function Wire(history: seq<Message>): (w: seq<WireMessage>)
    ensures |w| == |history|
    ensures forall i :: 0 <= i < |history| ==> w[i] == WireMessage(history[i].role, history[i].content)
  {
    if history == [] then [] else [WireMessage(history[0].role, history[0].content)] + Wire(history[1..])
  }

  /** The chunks a response body delivers; none without a body. */
  function Delivered(body: Option<Body>, decode: string -> Parsed): seq<string> {
    if body.None? then [] else Chunks(CompleteLines(Concat(body.value.pieces)), decode)
  }

  /** `streamResponse`: send the history, parse the stream, accumulate. */
  method StreamResponse(cfg: Config, history: seq<Message>, fetch: Request -> Result<HttpResponse, string>, decode: string -> Parsed)
    returns (r: Reply)
    ensures cfg.apiKey == "" ==> r == Reply([], Failure(MissingKey))
    ensures StreamChat(cfg, Wire(history), fetch).Failure? ==>
      r == Reply([], Failure(StreamChat(cfg, Wire(history), fetch).error))
    ensures StreamChat(cfg, Wire(history), fetch).Success? ==>
      r.updates == Cumulative(Delivered(StreamChat(cfg, Wire(history), fetch).value, decode))
    ensures r.settled.Success? <==>
      StreamChat(cfg, Wire(history), fetch).Success? && StreamChat(cfg, Wire(history), fetch).value.Some?
      && !StreamChat(cfg, Wire(history), fetch).value.value.readFails
    ensures r.settled.Success? ==> r.settled.value == Partial(r)
  {
    match StreamChat(cfg, Wire(history), fetch)
    case Failure(e) =>
      r := Reply([], Failure(e));
    case Success(body) =>
      var events := ParseStream(body, decode);
      r := Accumulate(events);
      if body.Some? {
        var cs := Chunks(CompleteLines(Concat(body.value.pieces)), decode);
        ChunkTextsOf(cs, if body.value.readFails then OnError(ReadFailed) else OnComplete);
        if r.settled.Success? && cs != [] {
          assert cs[..|cs|] == cs;
        }
      }
  }

  lemma {:induction false} ChunkTextsOf(cs: seq<string>, t: Event)
    requires IsTerminal(t)
    ensures ChunkTexts(ChunkEvents(cs) + [t]) == cs
    decreases |cs|
  {
    var es := ChunkEvents(cs) + [t];
    assert es[..|es| - 1] == ChunkEvents(cs);
    ChunkTextsOfChunks(cs);
  }

  lemma {:induction false} ChunkTextsOfChunks(cs: seq<string>)
    ensures ChunkTexts(ChunkEvents(cs)) == cs
    decreases |cs|
  {
    if cs != [] {
      var front := cs[..|cs| - 1];
      var es := ChunkEvents(cs);
      assert es[..|es| - 1] == ChunkEvents(front);
      ChunkTextsOfChunks(front);
      assert cs == front + [cs[|cs| - 1]];
    }
  }

  /** The text a placeholder shows when the stream stops: the last update. */
  function Partial(reply: Reply): string {
    if reply.updates == [] then "" else reply.updates[|reply.updates| - 1]
  }

  /** The id of the last message on screen, the parent of the next one. */
  function LastId(b: seq<Message>): (p: Option<string>)
    ensures p.None? <==> b == []
    ensures p.Some? ==> p.value == b[|b| - 1].id
  {
    if b == [] then None else Some(b[|b| - 1].id)
  }

  /** `prev.filter(m => m.id !== id)` */
  function Without(b: seq<Message>, id: string): (r: seq<Message>)
    ensures forall m :: m in r <==> m in b && m.id != id
    ensures |r| <= |b|
  {
    if b == [] then []
    else (if b[0].id == id then [] else [b[0]]) + Without(b[1..], id)
  }

  /** `prev.map(m => m.id === id ? { ...m, content } : m)` */
  function WithContent(b: seq<Message>, id: string, content: string): (r: seq<Message>)
    ensures |r| == |b|
    ensures forall i :: 0 <= i < |b| ==> r[i] == (if b[i].id == id then b[i].(content := content) else b[i])
  {
    if b == [] then [] else [if b[0].id == id then b[0].(content := content) else b[0]] + WithContent(b[1..], id, content)
  }

  /** What a handler does: the branch shown while the reply streams, the
      history sent, and the store, current chat id and branch shown once the
      reply has settled. */
  datatype Turn = Turn(optimistic: seq<Message>, history: seq<Message>, store: seq<Chat>, chatId: string, shown: seq<Message>)

  /** The ids `generateUUID` supplies to one submit. */
  datatype NewIds = NewIds(user: string, assistant: string, error: string, chat: string)

  /** The empty assistant message that waits for the reply. */
  function Placeholder(id: string, parent: string, now: int): Message {
    Message(id, Assistant, "", now, Some(parent))
  }

  /** The text the error answer starts with; the thrown error's string form follows it. */
  const ErrorPrefix := "Sorry, there was an error processing your request: "

  /** `handleSubmit`, with `errorText` standing for `String(error)`, the
      string form of the thrown error. */
  function Submit(store: seq<Chat>, chatId: string, messages: seq<Message>, input: string, isLoading: bool,
                  ids: NewIds, now: int, reply: Reply, errorText: string): (r: Option<Turn>)
    requires GetChat(store, ids.chat) == None
    ensures r.None? <==> Trim(input) == "" || isLoading
    ensures r.Some? ==> r.value.history == messages + [Message(ids.user, User, Trim(input), now, LastId(messages))]
    ensures r.Some? ==> r.value.optimistic == r.value.history + [Placeholder(ids.assistant, ids.user, now)]
    ensures r.Some? && reply.settled.Failure? ==> r.value.store == store && r.value.chatId == chatId
    ensures r.Some? && reply.settled.Failure? ==>
      r.value.shown == Without(r.value.optimistic, ids.assistant) + [Message(ids.error, Assistant, ErrorPrefix + errorText, now, LastId(messages))]
    ensures r.Some? && reply.settled.Success? ==> r.value.chatId == if chatId == "" then ids.chat else chatId
    ensures r.Some? && reply.settled.Success? ==> r.value.shown == GetActiveBranch(r.value.store, r.value.chatId)
  {
    var content := Trim(input);
    if content == "" || isLoading then None
    else
      var user := Message(ids.user, User, content, now, LastId(messages));
      var placeholder := Placeholder(ids.assistant, ids.user, now);
      var history := messages + [user];
      var optimistic := history + [placeholder];
      match reply.settled
      case Failure(_) =>
        var err := Message(ids.error, Assistant, ErrorPrefix + errorText, now, LastId(messages));
        Some(Turn(optimistic, history, store, chatId, Without(optimistic, ids.assistant) + [err]))
      case Success(full) =>
        var created := CreateChat(store, GenerateTitle(content), ids.chat, now);
        var cid := if chatId == "" then ids.chat else chatId;
        var s1 := if chatId == "" then created.1 else store;
        var s2 := AddMessage(AddMessage(s1, cid, user, now), cid, placeholder.(content := full), now);
        Some(Turn(optimistic, history, s2, cid, GetActiveBranch(s2, cid)))
  }

  /** `id` is a new, non-empty id that no stored message points at. */
  ghost predicate FreshId(msgs: seq<Message>, id: string) {
    id != "" && forall x :: x in msgs ==> x.id != id && x.parent != Some(id)
  }

  ghost predicate FreshIds(msgs: seq<Message>, id1: string, id2: string) {
    id1 != id2 && FreshId(msgs, id1) && FreshId(msgs, id2)
  }

  /** The active branch leads back to itself from its last message. */
  lemma BranchTip(chats: seq<Chat>, chatId: string)
    requires GetChat(chats, chatId).Some? && ParentsEarlier(GetChat(chats, chatId).value.messages)
    ensures Walk(GetChat(chats, chatId).value.messages, LastId(GetActiveBranch(chats, chatId)),
                 |GetChat(chats, chatId).value.messages|) == GetActiveBranch(chats, chatId)
  {
  }

  /** Storing a message and then a reply to it extends the active branch
      below the first message's parent by exactly the two. */
  lemma AddPair(chats: seq<Chat>, chatId: string, first: Message, second: Message, now: int)
    requires UniqueIds(chats) && GetChat(chats, chatId).Some?
    requires WellFormed(GetChat(chats, chatId).value.messages)
    requires FreshIds(GetChat(chats, chatId).value.messages, first.id, second.id)
    requires first.parent != Some(first.id) && first.parent != Some(second.id)
    requires second.parent == Some(first.id)
    ensures GetActiveBranch(AddMessage(AddMessage(chats, chatId, first, now), chatId, second, now), chatId)
      == Walk(GetChat(chats, chatId).value.messages, first.parent, |GetChat(chats, chatId).value.messages|) + [first, second]
  {
    var msgs := GetChat(chats, chatId).value.messages;
    var s1 := AddMessage(chats, chatId, first, now);
    FreshPair(msgs, first, second);
    assert UniqueIds(s1) && GetChat(s1, chatId).Some? && GetChat(s1, chatId).value.messages == msgs + [first]
      && WellFormed(msgs + [first]) by {
      AddMessageExtends(chats, chatId, first, now);
    }
    var b1 := Walk(msgs + [first], Some(first.id), |msgs| + 1);
    assert GetActiveBranch(AddMessage(s1, chatId, second, now), chatId) == b1 + [second] by {
      AddMessageExtends(s1, chatId, second, now);
    }
    var w := Walk(msgs, first.parent, |msgs|);
    assert b1 == w + [first] by {
      AppendExtends(msgs, first.parent, first);
    }
    SnocTwice(w, first, second);
  }

  lemma SnocTwice<T>(w: seq<T>, a: T, b: T)
    ensures (w + [a]) + [b] == w + [a, b]
  {
  }

  /** Two fresh ids make the first message fresh, and then the second. */
  lemma FreshPair(msgs: seq<Message>, first: Message, second: Message)
    requires FreshIds(msgs, first.id, second.id)
    requires first.parent != Some(first.id) && first.parent != Some(second.id)
    requires second.parent == Some(first.id)
    ensures Fresh(msgs, first) && Fresh(msgs + [first], second)
  {
    forall x | x in msgs + [first] ensures x.id != second.id && x.parent != Some(second.id) {
      if x != first {
        assert x in msgs;
      }
    }
  }

  /** After a successful submit in an existing chat whose active branch is on
      screen, the branch reloaded from the store is the optimistic branch
      with the reply in the placeholder. */
  lemma SubmitResync(store: seq<Chat>, chatId: string, input: string, ids: NewIds, now: int, reply: Reply, errorText: string)
    requires UniqueIds(store) && GetChat(store, ids.chat) == None && chatId != ""
    requires GetChat(store, chatId).Some? && WellFormed(GetChat(store, chatId).value.messages)
    requires FreshIds(GetChat(store, chatId).value.messages, ids.user, ids.assistant)
    requires Trim(input) != "" && reply.settled.Success?
    ensures Submit(store, chatId, GetActiveBranch(store, chatId), input, false, ids, now, reply, errorText).value.shown
      == Submit(store, chatId, GetActiveBranch(store, chatId), input, false, ids, now, reply, errorText).value.history
         + [Placeholder(ids.assistant, ids.user, now).(content := reply.settled.value)]
  {
    var msgs := GetChat(store, chatId).value.messages;
    var messages := GetActiveBranch(store, chatId);
    var user := Message(ids.user, User, Trim(input), now, LastId(messages));
    var second := Placeholder(ids.assistant, ids.user, now).(content := reply.settled.value);
    assert user.parent != Some(user.id) && user.parent != Some(second.id) by {
      if messages != [] {
        assert messages[|messages| - 1] in msgs;
      }
    }
    var s2 := AddMessage(AddMessage(store, chatId, user, now), chatId, second, now);
    var t := Submit(store, chatId, messages, input, false, ids, now, reply, errorText).value;
    assert t.shown == GetActiveBranch(s2, chatId) && t.history == messages + [user];
    assert GetActiveBranch(s2, chatId) == Walk(msgs, user.parent, |msgs|) + [user, second] by {
      AddPair(store, chatId, user, second, now);
    }
    assert Walk(msgs, user.parent, |msgs|) == messages by {
      BranchTip(store, chatId);
    }
    SnocTwice(messages, user, second);
  }

  /** The first successful submit creates a chat titled after the message,
      and the reloaded branch is exactly the two new messages. */
  lemma SubmitNewChat(store: seq<Chat>, input: string, ids: NewIds, now: int, reply: Reply, errorText: string)
    requires UniqueIds(store) && GetChat(store, ids.chat) == None
    requires ids.user != "" && ids.assistant != "" && ids.user != ids.assistant
    requires Trim(input) != "" && reply.settled.Success?
    ensures Submit(store, "", [], input, false, ids, now, reply, errorText).value.shown
      == [Message(ids.user, User, Trim(input), now, None),
          Placeholder(ids.assistant, ids.user, now).(content := reply.settled.value)]
    ensures GetChat(Submit(store, "", [], input, false, ids, now, reply, errorText).value.store, ids.chat).Some?
    ensures GetChat(Submit(store, "", [], input, false, ids, now, reply, errorText).value.store, ids.chat).value.title
      == GenerateTitle(Trim(input))
  {
    var title := GenerateTitle(Trim(input));
    var created := CreateChat(store, title, ids.chat, now);
    CreateChatUnique(store, title, ids.chat, now);
    assert title != "" by {
      assert !IsSpace(Trim(input)[0]);
      TitleNonEmpty(Trim(input));
    }
    var user := Message(ids.user, User, Trim(input), now, None);
    var second := Placeholder(ids.assistant, ids.user, now).(content := reply.settled.value);
    AddPair(created.1, ids.chat, user, second, now);
    AddMessageEffect(created.1, ids.chat, user, now, ids.chat);
    AddMessageEffect(AddMessage(created.1, ids.chat, user, now), ids.chat, second, now, ids.chat);
  }

  /** A message that is not blank gets a non-empty title. */
  lemma TitleNonEmpty(first: string)
    requires !AllSpace(first)
    ensures GenerateTitle(first) != ""
  {
    WordsNonEmpty(Trim(first));
    StemNonEmpty(first);
    assert StartsWith(GenerateTitle(first), TitleStem(first));
  }

  lemma StemNonEmpty(first: string)
    requires Words(Trim(first)) != []
    ensures TitleStem(first) != ""
  {
    WordsOfEmpty();
    assert Words(TitleStem(first)) != [];
  }

  lemma WordsNonEmpty(t: string)
    requires t != [] && !IsSpace(t[0])
    ensures Words(t) != []
  {
    assert TrimStart(t) == t;
  }

  lemma WordsOfEmpty()
    ensures Words("") == []
  {
    assert TrimStart("") == [];
  }

  /** When a submit fails, the error message replaces the placeholder and
      hangs off the message before the user's, not off the user message. */
  lemma SubmitErrorShown(store: seq<Chat>, chatId: string, messages: seq<Message>, input: string,
                         ids: NewIds, now: int, reply: Reply, errorText: string)
    requires GetChat(store, ids.chat) == None
    requires Trim(input) != "" && reply.settled.Failure?
    requires ids.user != ids.assistant && forall m :: m in messages ==> m.id != ids.assistant
    ensures Submit(store, chatId, messages, input, false, ids, now, reply, errorText).value.shown
      == messages + [Message(ids.user, User, Trim(input), now, LastId(messages)),
                     Message(ids.error, Assistant, ErrorPrefix + errorText, now, LastId(messages))]
  {
    var user := Message(ids.user, User, Trim(input), now, LastId(messages));
    WithoutAbsent(messages + [user], ids.assistant);
    WithoutSnoc(messages + [user], Placeholder(ids.assistant, ids.user, now), ids.assistant);
    SnocTwice(messages, user, Message(ids.error, Assistant, ErrorPrefix + errorText, now, LastId(messages)));
  }

  lemma {:induction false} WithoutAbsent(b: seq<Message>, id: string)
    requires forall m :: m in b ==> m.id != id
    ensures Without(b, id) == b
  {
    if b != [] {
      assert b[0] in b;
      forall m | m in b[1..] ensures m.id != id {
        assert m in b;
      }
      WithoutAbsent(b[1..], id);
      assert Without(b, id) == [b[0]] + b[1..];
    }
  }

  lemma {:induction false} WithoutSnoc(b: seq<Message>, m: Message, id: string)
    requires m.id == id
    ensures Without(b + [m], id) == Without(b, id)
  {
    if b == [] {
      assert [m][1..] == [];
    } else {
      assert (b + [m])[1..] == b[1..] + [m];
      WithoutSnoc(b[1..], m, id);
    }
  }

  /** `handleRetry`: a new assistant message beside the retried one. */
  function Retry(store: seq<Chat>, chatId: string, messages: seq<Message>, messageId: string,
                 newId: string, now: int, reply: Reply): (r: Option<Turn>)
    ensures r.None? <==> chatId == "" || forall m :: m in messages ==> m.id != messageId
    ensures r.Some? ==> r.value.history == messages[..IndexOfMessage(messages, messageId)]
    ensures r.Some? ==> (r.value.optimistic == r.value.history
      + [Message(newId, Assistant, "", now, messages[IndexOfMessage(messages, messageId)].parent)])
    ensures r.Some? ==> r.value.chatId == chatId
    ensures r.Some? && reply.settled.Failure? ==> r.value.store == store
    ensures r.Some? && reply.settled.Failure? ==>
      r.value.shown == r.value.history + [r.value.optimistic[|r.value.history|].(content := Partial(reply))]
    ensures r.Some? && reply.settled.Success? ==> r.value.shown == GetActiveBranch(r.value.store, chatId)
  {
    var i := IndexOfMessage(messages, messageId);
    if chatId == "" || i < 0 then
      assert i < 0 ==> forall m :: m in messages ==> m.id != messageId;
      None
    else
      var retried := Message(newId, Assistant, "", now, messages[i].parent);
      var history := messages[..i];
      var optimistic := history + [retried];
      match reply.settled
      case Failure(_) =>
        Some(Turn(optimistic, history, store, chatId, history + [retried.(content := Partial(reply))]))
      case Success(full) =>
        var s1 := AddMessage(store, chatId, retried.(content := full), now);
        Some(Turn(optimistic, history, s1, chatId, GetActiveBranch(s1, chatId)))
  }

  /** After a successful retry on the active branch, the reloaded branch is
      the part above the retried message followed by the new reply, which
      has the retried message's parent. */
  lemma RetryResync(store: seq<Chat>, chatId: string, messageId: string, newId: string, now: int, reply: Reply)
    requires UniqueIds(store) && chatId != ""
    requires GetChat(store, chatId).Some? && WellFormed(GetChat(store, chatId).value.messages)
    requires FreshId(GetChat(store, chatId).value.messages, newId)
    requires IndexOfMessage(GetActiveBranch(store, chatId), messageId) >= 0
    requires reply.settled.Success?
    ensures Retry(store, chatId, GetActiveBranch(store, chatId), messageId, newId, now, reply).value.shown
      == GetActiveBranch(store, chatId)[..IndexOfMessage(GetActiveBranch(store, chatId), messageId)]
         + [Message(newId, Assistant, reply.settled.value, now,
                    GetActiveBranch(store, chatId)[IndexOfMessage(GetActiveBranch(store, chatId), messageId)].parent)]
  {
    var messages := GetActiveBranch(store, chatId);
    var i := IndexOfMessage(messages, messageId);
    var m := Message(newId, Assistant, reply.settled.value, now, messages[i].parent);
    RetrySent(store, chatId, messages, messageId, newId, now, reply);
    RetriedBranch(store, chatId, i, m, now);
  }

  /** A successful retry shows the stored branch after adding the reply. */
  lemma RetrySent(store: seq<Chat>, chatId: string, messages: seq<Message>, messageId: string,
                  newId: string, now: int, reply: Reply)
    requires chatId != "" && IndexOfMessage(messages, messageId) >= 0
    requires reply.settled.Success?
    ensures Retry(store, chatId, messages, messageId, newId, now, reply).value.shown
      == GetActiveBranch(AddMessage(store, chatId,
           Message(newId, Assistant, reply.settled.value, now, messages[IndexOfMessage(messages, messageId)].parent),
           now), chatId)
  {
  }

  /** Adding a message beside the `i`-th message of the active branch makes
      the branch the part above the `i`-th message followed by it. */
  lemma RetriedBranch(store: seq<Chat>, chatId: string, i: int, m: Message, now: int)
    requires UniqueIds(store) && GetChat(store, chatId).Some?
    requires WellFormed(GetChat(store, chatId).value.messages)
    requires FreshId(GetChat(store, chatId).value.messages, m.id)
    requires 0 <= i < |GetActiveBranch(store, chatId)|
    requires m.parent == GetActiveBranch(store, chatId)[i].parent
    ensures GetActiveBranch(AddMessage(store, chatId, m, now), chatId) == GetActiveBranch(store, chatId)[..i] + [m]
  {
    var c := GetChat(store, chatId).value;
    var msgs := c.messages;
    var messages := GetActiveBranch(store, chatId);
    assert messages[i] in msgs;
    assert Fresh(msgs, m);
    AddMessageExtends(store, chatId, m, now);
    assert messages == Walk(msgs, c.currentLeaf, |msgs|);
    WalkToPrefix(msgs, c.currentLeaf, i);
  }

  /** How `handleEditSubmit` ends. */
  datatype EditOutcome =
    | Ignored          // nothing happens and the editor stays open
    | Unchanged        // the text is unchanged: the editor closes and nothing is sent
    | Sent(turn: Turn) // the editor closes and the edited message is sent

  /** `handleEditSubmit`: the edited text becomes a new user message beside
      the original, followed by a new placeholder. */
  function EditSubmit(store: seq<Chat>, chatId: string, messages: seq<Message>, editingId: Option<string>,
                      draft: string, ids: NewIds, now: int, reply: Reply): (r: EditOutcome)
    ensures r.Ignored? <==>
      !Truthy(editingId) || Trim(draft) == "" || chatId == "" || forall m :: m in messages ==> m.id != editingId.value
    ensures r.Unchanged? <==>
      !r.Ignored? && messages[IndexOfMessage(messages, editingId.value)].content == Trim(draft)
    ensures r.Sent? ==> (r.turn.history == messages[..IndexOfMessage(messages, editingId.value)]
      + [Message(ids.user, User, Trim(draft), now, messages[IndexOfMessage(messages, editingId.value)].parent)])
    ensures r.Sent? ==> r.turn.optimistic == r.turn.history + [Placeholder(ids.assistant, ids.user, now)]
    ensures r.Sent? ==> r.turn.chatId == chatId
    ensures r.Sent? && reply.settled.Failure? ==> r.turn.store == store
    ensures r.Sent? && reply.settled.Failure? ==>
      r.turn.shown == r.turn.history + [Placeholder(ids.assistant, ids.user, now).(content := Partial(reply))]
    ensures r.Sent? && reply.settled.Success? ==> r.turn.shown == GetActiveBranch(r.turn.store, chatId)
  {
    var content := Trim(draft);
    if !Truthy(editingId) || content == "" || chatId == "" then Ignored
    else
      var i := IndexOfMessage(messages, editingId.value);
      if i < 0 then Ignored
      else if messages[i].content == content then Unchanged
      else
        var user := Message(ids.user, User, content, now, messages[i].parent);
        var placeholder := Placeholder(ids.assistant, ids.user, now);
        var history := messages[..i] + [user];
        var optimistic := history + [placeholder];
        match reply.settled
        case Failure(_) =>
          Sent(Turn(optimistic, history, store, chatId, history + [placeholder.(content := Partial(reply))]))
        case Success(full) =>
          var s2 := AddMessage(AddMessage(store, chatId, user, now), chatId, placeholder.(content := full), now);
          Sent(Turn(optimistic, history, s2, chatId, GetActiveBranch(s2, chatId)))
  }

  /** After a successful edit on the active branch, the reloaded branch is
      the part above the edited message, the edited message (a sibling of
      the original, sharing its parent) and the reply. */
  lemma EditResync(store: seq<Chat>, chatId: string, editingId: string, draft: string, ids: NewIds, now: int, reply: Reply)
    requires UniqueIds(store) && chatId != "" && editingId != ""
    requires GetChat(store, chatId).Some? && WellFormed(GetChat(store, chatId).value.messages)
    requires FreshIds(GetChat(store, chatId).value.messages, ids.user, ids.assistant)
    requires IndexOfMessage(GetActiveBranch(store, chatId), editingId) >= 0
    requires Trim(draft) != "" && Trim(draft) != GetActiveBranch(store, chatId)[IndexOfMessage(GetActiveBranch(store, chatId), editingId)].content
    requires reply.settled.Success?
    ensures EditSubmit(store, chatId, GetActiveBranch(store, chatId), Some(editingId), draft, ids, now, reply).Sent?
    ensures EditSubmit(store, chatId, GetActiveBranch(store, chatId), Some(editingId), draft, ids, now, reply).turn.shown
      == EditSubmit(store, chatId, GetActiveBranch(store, chatId), Some(editingId), draft, ids, now, reply).turn.history
         + [Placeholder(ids.assistant, ids.user, now).(content := reply.settled.value)]
  {
    var messages := GetActiveBranch(store, chatId);
    var i := IndexOfMessage(messages, editingId);
    var user := Message(ids.user, User, Trim(draft), now, messages[i].parent);
    var second := Placeholder(ids.assistant, ids.user, now).(content := reply.settled.value);
    EditSent(store, chatId, messages, editingId, draft, ids, now, reply);
    EditedBranch(store, chatId, i, user, second, now);
    SnocTwice(messages[..i], user, second);
  }

  /** A changed, non-blank edit of a message on screen that gets a reply is
      sent, and the store afterwards holds the edited message and the reply. */
  lemma EditSent(store: seq<Chat>, chatId: string, messages: seq<Message>, editingId: string,
                 draft: string, ids: NewIds, now: int, reply: Reply)
    requires chatId != "" && editingId != "" && Trim(draft) != ""
    requires IndexOfMessage(messages, editingId) >= 0
    requires Trim(draft) != messages[IndexOfMessage(messages, editingId)].content
    requires reply.settled.Success?
    ensures var i := IndexOfMessage(messages, editingId);
      var user := Message(ids.user, User, Trim(draft), now, messages[i].parent);
      var second := Placeholder(ids.assistant, ids.user, now).(content := reply.settled.value);
      var r := EditSubmit(store, chatId, messages, Some(editingId), draft, ids, now, reply);
      r.Sent? && r.turn.history == messages[..i] + [user] &&
      r.turn.shown == GetActiveBranch(AddMessage(AddMessage(store, chatId, user, now), chatId, second, now), chatId)
  {
  }

  /** Adding an edited message beside the `i`-th message of the active
      branch, and a reply below it, makes the branch the part above the
      `i`-th message followed by the two. */
  lemma EditedBranch(store: seq<Chat>, chatId: string, i: int, user: Message, second: Message, now: int)
    requires UniqueIds(store) && GetChat(store, chatId).Some?
    requires WellFormed(GetChat(store, chatId).value.messages)
    requires FreshIds(GetChat(store, chatId).value.messages, user.id, second.id)
    requires 0 <= i < |GetActiveBranch(store, chatId)|
    requires user.parent == GetActiveBranch(store, chatId)[i].parent && second.parent == Some(user.id)
    ensures GetActiveBranch(AddMessage(AddMessage(store, chatId, user, now), chatId, second, now), chatId)
      == GetActiveBranch(store, chatId)[..i] + [user, second]
  {
    var c := GetChat(store, chatId).value;
    var msgs := c.messages;
    var messages := GetActiveBranch(store, chatId);
    assert messages[i] in msgs;
    AddPair(store, chatId, user, second, now);
    assert messages == Walk(msgs, c.currentLeaf, |msgs|);
    WalkToPrefix(msgs, c.currentLeaf, i);
  }

  /** `handleContinue`: asks for more of the reply with the history up to and
      including the message. While it streams, the message's content is
      replaced by the cumulative text; nothing is written to the store, so on
      success the branch reloaded from the store drops the streamed text. */
  function Continue(store: seq<Chat>, chatId: string, messages: seq<Message>, messageId: string, reply: Reply): (r: Option<Turn>)
    ensures r.None? <==> chatId == "" || forall m :: m in messages ==> m.id != messageId
    ensures r.Some? ==> r.value.history == messages[..IndexOfMessage(messages, messageId) + 1]
    ensures r.Some? ==> r.value.optimistic == messages
    ensures r.Some? ==> r.value.store == store && r.value.chatId == chatId
    ensures r.Some? && reply.settled.Success? ==> r.value.shown == GetActiveBranch(store, chatId)
    ensures r.Some? && reply.settled.Failure? && reply.updates == [] ==> r.value.shown == messages
    ensures r.Some? && reply.settled.Failure? && reply.updates != [] ==>
      |r.value.shown| == |messages| &&
      forall k :: 0 <= k < |messages| ==>
        r.value.shown[k] == if messages[k].id == messageId then messages[k].(content := Partial(reply)) else messages[k]
  {
    var i := IndexOfMessage(messages, messageId);
    if chatId == "" || i < 0 then None
    else
      var history := messages[..i + 1];
      var shown :=
        if reply.settled.Success? then GetActiveBranch(store, chatId)
        else if reply.updates == [] then messages
        else WithContent(messages, messageId, Partial(reply));
      Some(Turn(messages, history, store, chatId, shown))
  }

  /** Continuing the branch loaded from the store and succeeding shows that
      same branch again: the continued message keeps its stored text and the
      streamed continuation is not kept. */
  lemma ContinueResync(store: seq<Chat>, chatId: string, messageId: string, reply: Reply)
    requires chatId != "" && IndexOfMessage(GetActiveBranch(store, chatId), messageId) >= 0
    requires reply.settled.Success?
    ensures var messages := GetActiveBranch(store, chatId);
      var t := Continue(store, chatId, messages, messageId, reply).value;
      t.shown == messages && t.store == store &&
      t.shown[IndexOfMessage(messages, messageId)].content == messages[IndexOfMessage(messages, messageId)].content
  {
  }

  /** A continuation that fails after streaming leaves the branch on screen
      as it was except for the continued message, which shows the last
      streamed text; with unique ids no other message changes. */
  lemma ContinueFailureChangesOne(store: seq<Chat>, chatId: string, messages: seq<Message>, messageId: string, reply: Reply)
    requires chatId != "" && IndexOfMessage(messages, messageId) >= 0 && UniqueMsgIds(messages)
    requires reply.settled.Failure? && reply.updates != []
    ensures var i := IndexOfMessage(messages, messageId);
      Continue(store, chatId, messages, messageId, reply).value.shown
        == messages[..i] + [messages[i].(content := reply.updates[|reply.updates| - 1])] + messages[i + 1..]
  {
    WithContentAt(messages, messageId, Partial(reply));
  }

  /** With unique ids, replacing the content of the message `id` changes only
      the entry at its index. */
  lemma WithContentAt(b: seq<Message>, id: string, content: string)
    requires IndexOfMessage(b, id) >= 0 && UniqueMsgIds(b)
    ensures var i := IndexOfMessage(b, id);
      WithContent(b, id, content) == b[..i] + [b[i].(content := content)] + b[i + 1..]
  {
    var i := IndexOfMessage(b, id);
    var expected := b[..i] + [b[i].(content := content)] + b[i + 1..];
    forall k | 0 <= k < |b|
      ensures WithContent(b, id, content)[k] == expected[k]
    {
      if k != i {
        assert MsgId(b[k]) != MsgId(b[i]);
      }
    }
  }

  /** `handleNavigate`: switch the sibling at a position of the branch on
      screen and reload the branch; the new store and branch, if anything happens. */
  function Navigate(store: seq<Chat>, chatId: string, messages: seq<Message>, index: int, dir: Direction, now: int)
    : (r: Option<(seq<Chat>, seq<Message>)>)
    ensures r.None? <==> chatId == "" || !(0 <= index < |messages|)
    ensures r.Some? ==> r.value.1 == GetActiveBranch(r.value.0, chatId)
    ensures r.Some? && GetChat(store, chatId).None? ==> r.value.0 == store
  {
    if chatId == "" || !(0 <= index < |messages|) then None
    else
      var s1 := SwitchToSibling(store, chatId, messages[index].id, dir, now);
      Some((s1, GetActiveBranch(s1, chatId)))
  }

  /** Navigating shows the branch through the chosen sibling, or reloads the
      same branch when the step would leave the siblings. */
  lemma NavigateShows(store: seq<Chat>, chatId: string, messages: seq<Message>, index: int, dir: Direction, now: int)
    requires UniqueIds(store) && chatId != "" && 0 <= index < |messages|
    requires GetChat(store, chatId).Some? && WellFormed(GetChat(store, chatId).value.messages)
    ensures SwitchIn(GetChat(store, chatId).value, messages[index].id, dir).None? ==>
      Navigate(store, chatId, messages, index, dir, now).value == (store, GetActiveBranch(store, chatId))
    ensures SwitchIn(GetChat(store, chatId).value, messages[index].id, dir).Some? ==>
      Navigate(store, chatId, messages, index, dir, now).value.1
        == ActiveBranch(SwitchIn(GetChat(store, chatId).value, messages[index].id, dir).value)
  {
    if SwitchIn(GetChat(store, chatId).value, messages[index].id, dir).Some? {
      SwitchToSiblingBranch(store, chatId, messages[index].id, dir, now);
    }
  }
}
