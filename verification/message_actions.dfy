/** The action bar under one message: copy, continue, retry, edit, and the
    previous/next variant buttons with their `k/n` counter. */
module MessageActions {
  import opened Common
  import opened Store
  import opened Branches

  datatype Action = Copy | Continue | Retry | Edit | PrevVariant | NextVariant

  /** Which callbacks the message list handed to the bar. */
  datatype Handlers = Handlers(onContinue: bool, onRetry: bool, onEdit: bool, onNavigate: bool)

  /** What the bar renders: the buttons shown, those of them greyed out, and
      the `currentIndex + 1` / `siblings.length` counter when variants are shown. */
  datatype Bar = Bar(visible: set<Action>, disabled: set<Action>, counter: Option<(int, int)>)

  /** The sibling group the bar loads for a message: nothing until a chat is open. */
  function BarSiblings(chats: seq<Chat>, chatId: string, messageId: string): Siblings {
    if chatId == "" then Siblings([], 0) else GetSiblings(chats, chatId, messageId)
  }

  predicate HasVariants(s: Siblings) {
    |s.siblings| > 1
  }

  predicate HasPrev(s: Siblings) {
    s.currentIndex > 0
  }

  predicate HasNext(s: Siblings) {
    s.currentIndex < |s.siblings| - 1
  }

  /** Whether the button for `dir` is greyed out. */
  predicate NavDisabled(s: Siblings, dir: Direction, isLoading: bool) {
    (if dir == Prev then !HasPrev(s) else !HasNext(s)) || isLoading
  }

  /** The variant button that requests a step in `dir`. */
  function Arrow(dir: Direction): Action {
    if dir == Prev then PrevVariant else NextVariant
  }

  /** The bar for message `m`. */
  function ActionBar(m: Message, h: Handlers, s: Siblings, isLoading: bool): (b: Bar)
    ensures Copy in b.visible && Copy !in b.disabled
    ensures Continue in b.visible <==> m.role == Assistant && h.onContinue
    ensures Retry in b.visible <==> m.role == Assistant && h.onRetry
    ensures Edit in b.visible <==> m.role == User && h.onEdit
    ensures PrevVariant in b.visible <==> HasVariants(s) && h.onNavigate
    ensures NextVariant in b.visible <==> PrevVariant in b.visible
    ensures b.counter == if PrevVariant in b.visible then Some((s.currentIndex + 1, |s.siblings|)) else None
    ensures b.disabled <= b.visible
    ensures forall a :: a in b.visible && a in {Continue, Retry, Edit} ==> (a in b.disabled <==> isLoading)
    ensures forall dir :: Arrow(dir) in b.visible ==> (Arrow(dir) in b.disabled <==> NavDisabled(s, dir, isLoading))
  {
    var roleActions :=
      (if m.role == Assistant && h.onContinue then {Continue} else {}) +
      (if m.role == Assistant && h.onRetry then {Retry} else {}) +
      (if m.role == User && h.onEdit then {Edit} else {});
    var nav := HasVariants(s) && h.onNavigate;
    var navActions := if nav then {PrevVariant, NextVariant} else {};
    var navDisabled :=
      (if nav && NavDisabled(s, Prev, isLoading) then {PrevVariant} else {}) +
      (if nav && NavDisabled(s, Next, isLoading) then {NextVariant} else {});
    Bar({Copy} + roleActions + navActions,
        (if isLoading then roleActions else {}) + navDisabled,
        if nav then Some((s.currentIndex + 1, |s.siblings|)) else None)
  }

  /** Whether `switchToSibling` would move the leaf pointer. */
  predicate SwitchMoves(chats: seq<Chat>, chatId: string, messageId: string, dir: Direction) {
    GetChat(chats, chatId).Some? && SwitchIn(GetChat(chats, chatId).value, messageId, dir).Some?
  }

  /** A variant button is greyed out exactly when loading or when the switch
      it would request is a no-op; an enabled button always moves the leaf. */
  lemma NavDisabledIffNoOp(chats: seq<Chat>, chatId: string, messageId: string, dir: Direction, isLoading: bool, now: int)
    requires chatId != ""
    ensures NavDisabled(BarSiblings(chats, chatId, messageId), dir, isLoading) <==>
      isLoading || !SwitchMoves(chats, chatId, messageId, dir)
    ensures !SwitchMoves(chats, chatId, messageId, dir) ==> SwitchToSibling(chats, chatId, messageId, dir, now) == chats
  {
    var s := BarSiblings(chats, chatId, messageId);
    match GetChat(chats, chatId)
    case None =>
      assert s == Siblings([], 0);
    case Some(c) =>
      assert s == SiblingsIn(c, messageId);
  }

  /** On the bar itself: a shown variant button is greyed out exactly when
      loading or when the switch it requests would change nothing. */
  lemma ArrowDisabledIffNoOp(chats: seq<Chat>, chatId: string, messageId: string, m: Message, h: Handlers,
                             dir: Direction, isLoading: bool)
    requires chatId != ""
    requires Arrow(dir) in ActionBar(m, h, BarSiblings(chats, chatId, messageId), isLoading).visible
    ensures Arrow(dir) in ActionBar(m, h, BarSiblings(chats, chatId, messageId), isLoading).disabled <==>
      isLoading || !SwitchMoves(chats, chatId, messageId, dir)
  {
    NavDisabledIffNoOp(chats, chatId, messageId, dir, isLoading, 0);
  }

  /** The counter names the message's own position among its siblings, 1-based. */
  lemma CounterShowsPosition(chats: seq<Chat>, chatId: string, messageId: string, m: Message, h: Handlers, isLoading: bool)
    requires ActionBar(m, h, BarSiblings(chats, chatId, messageId), isLoading).counter.Some?
    ensures var s := BarSiblings(chats, chatId, messageId);
      var (k, n) := ActionBar(m, h, s, isLoading).counter.value;
      1 <= k <= n && n == |s.siblings| && s.siblings[k - 1].id == messageId
  {
    var s := BarSiblings(chats, chatId, messageId);
    assert s.siblings != [];
    var c := GetChat(chats, chatId).value;
    assert s == SiblingsIn(c, messageId);
  }

  /** No message offers both editing and regeneration. */
  lemma EditExcludesRegenerate(m: Message, h: Handlers, s: Siblings, isLoading: bool)
    requires Edit in ActionBar(m, h, s, isLoading).visible
    ensures Continue !in ActionBar(m, h, s, isLoading).visible
    ensures Retry !in ActionBar(m, h, s, isLoading).visible
  {
  }
}
