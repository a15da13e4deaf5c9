/** The values the message list derives from the branch it is given: which
    messages are rendered, which one streams, which one carries the
    "last answer" actions, which one is an editor, and when the view
    scrolls to the bottom. */
module MessageList {
  import opened Common
  import opened Store
  import Controller

  /** `filteredMessages`: the user and assistant messages, in branch order. */
  function Rendered(msgs: seq<Message>): (r: seq<Message>)
    ensures |r| <= |msgs|
    ensures forall m :: m in r <==> m in msgs && m.role != System
  {
    if msgs == [] then []
    else (if msgs[0].role != System then [msgs[0]] else []) + Rendered(msgs[1..])
  }

  /** Filtering distributes over concatenation, so the relative order of the
      kept messages is the branch order. */
  lemma {:induction false} RenderedAppend(a: seq<Message>, b: seq<Message>)
    ensures Rendered(a + b) == Rendered(a) + Rendered(b)
  {
    if a != [] {
      assert (a + b)[0] == a[0];
      assert (a + b)[1..] == a[1..] + b;
      RenderedAppend(a[1..], b);
    } else {
      assert a + b == b;
    }
  }

  /** Filtering an already filtered list changes nothing. */
  lemma {:induction false} RenderedIdempotent(msgs: seq<Message>)
    ensures Rendered(Rendered(msgs)) == Rendered(msgs)
  {
    if msgs != [] {
      var head := if msgs[0].role != System then [msgs[0]] else [];
      RenderedAppend(head, Rendered(msgs[1..]));
      RenderedIdempotent(msgs[1..]);
      if head != [] {
        assert head[1..] == [];
      }
    }
  }

  /** The `reduce` behind `lastAssistantIndex`: the accumulator `acc` after
      visiting positions `0..k`, carried on to the end of `ms`. */
  function LastAssistantFrom(ms: seq<Message>, k: nat, acc: int): int
    requires k <= |ms|
    decreases |ms| - k
  {
    if k == |ms| then acc
    else LastAssistantFrom(ms, k + 1, if ms[k].role == Assistant then k else acc)
  }

  /** `lastAssistantIndex` */
  function LastAssistantIndex(ms: seq<Message>): int {
    LastAssistantFrom(ms, 0, -1)
  }

  /** What the accumulator means: the last assistant position seen so far, or -1. */
  ghost predicate LastAssistantUpTo(ms: seq<Message>, k: int, i: int)
    requires 0 <= k <= |ms|
  {
    -1 <= i < k && (i >= 0 ==> ms[i].role == Assistant) &&
    forall j :: i < j < k ==> ms[j].role != Assistant
  }

  lemma {:induction false} LastAssistantFromCorrect(ms: seq<Message>, k: nat, acc: int)
    requires k <= |ms| && LastAssistantUpTo(ms, k, acc)
    ensures LastAssistantUpTo(ms, |ms|, LastAssistantFrom(ms, k, acc))
    decreases |ms| - k
  {
    if k < |ms| {
      LastAssistantFromCorrect(ms, k + 1, if ms[k].role == Assistant then k else acc);
    }
  }

  /** `lastAssistantIndex` is the largest index of an assistant message, or
      -1 when there is none. */
  lemma LastAssistantIsLast(ms: seq<Message>)
    ensures -1 <= LastAssistantIndex(ms) < |ms|
    ensures LastAssistantIndex(ms) >= 0 ==> ms[LastAssistantIndex(ms)].role == Assistant
    ensures forall j :: LastAssistantIndex(ms) < j < |ms| ==> ms[j].role != Assistant
    ensures LastAssistantIndex(ms) == -1 <==> forall j :: 0 <= j < |ms| ==> ms[j].role != Assistant
  {
    LastAssistantFromCorrect(ms, 0, -1);
  }

  /** `isStreamingMessage` for the row at `index`. */
  predicate IsStreaming(ms: seq<Message>, index: int, isLoading: bool)
    requires 0 <= index < |ms|
  {
    isLoading && index == |ms| - 1 && ms[index].role == Assistant
  }

  /** `isLastAssistantMessage` for the row at `index`. */
  predicate IsLastAnswer(ms: seq<Message>, index: int, isLoading: bool)
    requires 0 <= index < |ms|
  {
    !isLoading && index == LastAssistantIndex(ms) && ms[index].role == Assistant
  }

  /** Each flag marks at most one row, never the same row, and the
      "last answer" row is the last assistant message when not loading. */
  lemma RowFlags(ms: seq<Message>, isLoading: bool, i: int, j: int)
    requires 0 <= i < |ms| && 0 <= j < |ms|
    ensures IsStreaming(ms, i, isLoading) && IsStreaming(ms, j, isLoading) ==> i == j
    ensures IsLastAnswer(ms, i, isLoading) && IsLastAnswer(ms, j, isLoading) ==> i == j
    ensures !(IsStreaming(ms, i, isLoading) && IsLastAnswer(ms, i, isLoading))
    ensures IsLastAnswer(ms, i, isLoading) <==>
      (!isLoading && ms[i].role == Assistant && forall k :: i < k < |ms| ==> ms[k].role != Assistant)
  {
    LastAssistantIsLast(ms);
  }

  /** The row rendered as an inline editor instead of a message. */
  predicate IsEditorRow(m: Message, editingId: Option<string>) {
    m.role == User && Truthy(editingId) && m.id == editingId.value
  }

  /** With distinct message ids, at most one row is an editor, and it is the
      user message being edited. */
  lemma EditorRowUnique(ms: seq<Message>, editingId: Option<string>, i: int, j: int)
    requires forall a, b :: 0 <= a < b < |ms| ==> ms[a].id != ms[b].id
    requires 0 <= i < |ms| && 0 <= j < |ms|
    requires IsEditorRow(ms[i], editingId) && IsEditorRow(ms[j], editingId)
    ensures i == j && ms[i].role == User && Some(ms[i].id) == editingId
  {
  }

  /** `userJustSentMessage`: the list grew and now ends with a user message. */
  predicate JustSent(prevLen: nat, ms: seq<Message>) {
    |ms| > prevLen && ms[|ms| - 1].role == User
  }

  /** The refs the list keeps between renders. */
  datatype ScrollState = ScrollState(atBottom: bool, prevLen: nat)

  /** The effect run when the messages change: the new refs, and whether the
      view scrolls to the end. */
  function AfterMessagesChange(st: ScrollState, ms: seq<Message>): (r: (ScrollState, bool))
    ensures r.0.prevLen == |ms|
    ensures r.1 <==> JustSent(st.prevLen, ms) || st.atBottom
    ensures r.0.atBottom == r.1
  {
    if JustSent(st.prevLen, ms) then (ScrollState(true, |ms|), true)
    else if st.atBottom then (ScrollState(true, |ms|), true)
    else (ScrollState(false, |ms|), false)
  }

  /** A submit shows its user message and the assistant placeholder in one
      update, so the list then ends with an assistant message and the
      "user just sent" scroll does not fire; only the at-bottom flag scrolls. */
  lemma SubmitNeverJustSent(store: seq<Chat>, chatId: string, messages: seq<Message>, input: string, isLoading: bool,
                            ids: Controller.NewIds, now: int, reply: Controller.Reply, errorText: string)
    requires GetChat(store, ids.chat) == None
    requires Controller.Submit(store, chatId, messages, input, isLoading, ids, now, reply, errorText).Some?
    ensures !JustSent(|messages|, Controller.Submit(store, chatId, messages, input, isLoading, ids, now, reply, errorText).value.optimistic)
  {
  }

  const LeaveBottom := 70
  const ReachBottom := 50

  /** `handleScroll`: the at-bottom flag after a scroll event that leaves the
      viewport `distance` pixels above the end of the content. */
  function OnScroll(atBottom: bool, distance: int): bool {
    if distance > LeaveBottom then false
    else if distance < ReachBottom then true
    else atBottom
  }

  /** `scrollHeight - scrollTop - clientHeight` */
  function Distance(scrollHeight: int, scrollTop: int, clientHeight: int): int {
    scrollHeight - scrollTop - clientHeight
  }

  /** The flag after a run of scroll events. */
  function ScrollRun(atBottom: bool, distances: seq<int>): bool
    decreases |distances|
  {
    if distances == [] then atBottom else ScrollRun(OnScroll(atBottom, distances[0]), distances[1..])
  }

  /** Hysteresis: scrolling anywhere inside the 50..70 band never changes
      the flag, however long it goes on. */
  lemma {:induction false} BandKeepsFlag(atBottom: bool, distances: seq<int>)
    requires forall k :: 0 <= k < |distances| ==> ReachBottom <= distances[k] <= LeaveBottom
    ensures ScrollRun(atBottom, distances) == atBottom
    decreases |distances|
  {
    if distances != [] {
      BandKeepsFlag(atBottom, distances[1..]);
    }
  }

  /** The last event outside the band decides the flag: afterwards only
      band events follow, and they keep it. */
  lemma {:induction false} LastExitDecides(atBottom: bool, before: seq<int>, d: int, after: seq<int>)
    requires d < ReachBottom || d > LeaveBottom
    requires forall k :: 0 <= k < |after| ==> ReachBottom <= after[k] <= LeaveBottom
    ensures ScrollRun(atBottom, before + [d] + after) == (d < ReachBottom)
    decreases |before|
  {
    if before == [] {
      assert before + [d] + after == [d] + after;
      assert ([d] + after)[1..] == after;
      BandKeepsFlag(OnScroll(atBottom, d), after);
    } else {
      assert (before + [d] + after)[1..] == before[1..] + [d] + after;
      LastExitDecides(OnScroll(atBottom, before[0]), before[1..], d, after);
    }
  }
}
