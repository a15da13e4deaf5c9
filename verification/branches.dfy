/** The conversation tree inside one chat: resolving the active branch from
    the leaf pointer, listing the siblings of a message, switching to a
    neighbouring sibling and descending to the deepest leaf below it.

    Two lookups coexist in the source and are kept apart here: the branch
    walk builds a `Map` from the message list, so the LAST message with an
    id wins (`Lookup`), while sibling listing uses `find`, so the FIRST one
    wins (`FindMessage`). With unique ids they agree (`LookupIsFind`).

    The walk and the descent are loops over parent links that the source
    runs until they stop by themselves; here each carries a step budget
    (`fuel`), and `WellFormed` lists what the stored data satisfies so
    that the budget of one step per message is always enough. */
module Branches {
  import opened Common
  import opened Sorting
  import opened Store

  function MsgId(m: Message): string {
    m.id
  }

  function CreatedAtKey(m: Message): int {
    m.createdAt
  }

  /** The index a `Map` built from the list keeps for `id`: the last one. */
  function LastIndexOf(msgs: seq<Message>, id: string): (i: int)
    ensures -1 <= i < |msgs|
    ensures i >= 0 ==> msgs[i].id == id
    ensures forall j :: i < j < |msgs| ==> msgs[j].id != id
  {
    if msgs == [] then -1
    else if msgs[|msgs| - 1].id == id then |msgs| - 1
    else LastIndexOf(msgs[..|msgs| - 1], id)
  }

  /** `messagesMap.get(id)` */
  function Lookup(msgs: seq<Message>, id: string): (r: Option<Message>)
    ensures r.None? <==> forall m :: m in msgs ==> m.id != id
    ensures r.Some? ==> r.value in msgs && r.value.id == id
  {
    var i := LastIndexOf(msgs, id);
    if i < 0 then None else Some(msgs[i])
  }

  /** `chat.messages.find(m => m.id === id)` */
  function FindMessage(msgs: seq<Message>, id: string): (r: Option<Message>)
    ensures r.None? <==> forall m :: m in msgs ==> m.id != id
    ensures r.Some? ==> r.value in msgs && r.value.id == id
  {
    if msgs == [] then None
    else if msgs[0].id == id then Some(msgs[0])
    else FindMessage(msgs[1..], id)
  }

  /** The parent id of the `k`-th message, if any, resolves to an earlier
      message or to none. */
  ghost predicate ParentBefore(msgs: seq<Message>, k: int)
    requires 0 <= k < |msgs|
  {
    msgs[k].parent.Some? ==> LastIndexOf(msgs, msgs[k].parent.value) < k
  }

  /** Every parent link points to a message stored earlier, or to none. */
  ghost predicate ParentsEarlier(msgs: seq<Message>) {
    forall k :: 0 <= k < |msgs| ==> ParentBefore(msgs, k)
  }

  ghost predicate UniqueMsgIds(msgs: seq<Message>) {
    DistinctBy(msgs, MsgId)
  }

  /** Ids come from `crypto.randomUUID` and are never empty. */
  ghost predicate IdsTruthy(msgs: seq<Message>) {
    forall m :: m in msgs ==> m.id != ""
  }

  /** What the application's own writes keep true of a chat's messages. */
  ghost predicate WellFormed(msgs: seq<Message>) {
    ParentsEarlier(msgs) && UniqueMsgIds(msgs) && IdsTruthy(msgs)
  }

  /** A message that may be appended: its id is new and nothing already
      points at it, and it does not point at itself. */
  ghost predicate Fresh(msgs: seq<Message>, m: Message) {
    m.id != "" && m.parent != Some(m.id) &&
    forall x :: x in msgs ==> x.id != m.id && x.parent != Some(m.id)
  }

  /** The parent id of `next` is truthy and resolves to `prev`. */
  ghost predicate LinksTo(msgs: seq<Message>, prev: Message, next: Message) {
    Truthy(next.parent) && Lookup(msgs, next.parent.value) == Some(prev)
  }

  /** Each message of `b` is the one its successor's parent id resolves to. */
  ghost predicate Linked(msgs: seq<Message>, b: seq<Message>) {
    forall i :: 0 < i < |b| ==> LinksTo(msgs, b[i - 1], b[i])
  }

  /** The walk stops at `m`: its parent id is falsy or resolves to nothing. */
  ghost predicate IsRoot(msgs: seq<Message>, m: Message) {
    !Truthy(m.parent) || Lookup(msgs, m.parent.value).None?
  }

  /** `b` is the whole branch, root first, that ends at the message `leaf` names. */
  ghost predicate IsChain(msgs: seq<Message>, leaf: Option<string>, b: seq<Message>) {
    b != [] && Truthy(leaf) && Lookup(msgs, leaf.value) == Some(b[|b| - 1]) &&
    Linked(msgs, b) && IsRoot(msgs, b[0])
  }

  /** `b` is the branch ending at `p`, which is empty when `p` names nothing. */
  ghost predicate PathFrom(msgs: seq<Message>, p: Option<string>, b: seq<Message>) {
    if b == [] then !Truthy(p) || Lookup(msgs, p.value).None? else IsChain(msgs, p, b)
  }

  /** The loop of `getActiveBranch`: follow parent ids from `cur` while the id
      is truthy and resolves, collecting messages root first. */
  function Walk(msgs: seq<Message>, cur: Option<string>, fuel: nat): (b: seq<Message>)
    ensures |b| <= fuel
    ensures forall m :: m in b ==> m in msgs
    ensures b == [] <==> fuel == 0 || !Truthy(cur) || Lookup(msgs, cur.value).None?
    ensures b != [] ==> Lookup(msgs, cur.value) == Some(b[|b| - 1])
    ensures Linked(msgs, b)
    decreases fuel
  {
    if fuel == 0 || !Truthy(cur) then []
    else
      match Lookup(msgs, cur.value)
      case None => []
      case Some(m) =>
        var inner := Walk(msgs, m.parent, fuel - 1);
        LinkedSnoc(msgs, inner, m);
        inner + [m]
  }

  /** The active branch of one chat. */
  function ActiveBranch(c: Chat): seq<Message> {
    Walk(c.messages, c.currentLeaf, |c.messages|)
  }

  /** `getActiveBranch`: empty for an unknown chat or a falsy leaf pointer. */
  function GetActiveBranch(chats: seq<Chat>, chatId: string): (b: seq<Message>)
    ensures GetChat(chats, chatId).None? ==> b == []
    ensures GetChat(chats, chatId).Some? && !Truthy(GetChat(chats, chatId).value.currentLeaf) ==> b == []
    ensures forall m :: m in b ==> m in GetChat(chats, chatId).value.messages
  {
    match GetChat(chats, chatId)
    case None => []
    case Some(c) => if !Truthy(c.currentLeaf) then [] else ActiveBranch(c)
  }

  lemma LastIndexOfAtLeast(msgs: seq<Message>, j: int)
    requires 0 <= j < |msgs|
    ensures LastIndexOf(msgs, msgs[j].id) >= j
  {
  }

  lemma LookupAppend(msgs: seq<Message>, m: Message, id: string)
    ensures LastIndexOf(msgs + [m], id) == if m.id == id then |msgs| else LastIndexOf(msgs, id)
    ensures Lookup(msgs + [m], id) == if m.id == id then Some(m) else Lookup(msgs, id)
  {
    assert (msgs + [m])[..|msgs|] == msgs;
  }

  /** With unique ids the last and the first message with an id coincide. */
  lemma LookupIsFind(msgs: seq<Message>, id: string)
    requires UniqueMsgIds(msgs)
    ensures Lookup(msgs, id) == FindMessage(msgs, id)
  {
    match Lookup(msgs, id)
    case None =>
    case Some(m) =>
      var f := FindMessage(msgs, id).value;
      UniqueMessage(msgs, m, f);
  }

  lemma UniqueMessage(msgs: seq<Message>, a: Message, b: Message)
    requires UniqueMsgIds(msgs)
    requires a in msgs && b in msgs
    ensures a.id == b.id ==> a == b
  {
    var i :| 0 <= i < |msgs| && msgs[i] == a;
    var j :| 0 <= j < |msgs| && msgs[j] == b;
    if i < j {
      assert MsgId(msgs[i]) != MsgId(msgs[j]);
    } else if j < i {
      assert MsgId(msgs[j]) != MsgId(msgs[i]);
    }
  }

  /** In a chain, the message before the last is where the last one's parent id leads. */
  lemma LastLink(msgs: seq<Message>, b: seq<Message>)
    requires Linked(msgs, b) && b != []
    ensures |b| > 1 ==> Truthy(b[|b| - 1].parent) && Lookup(msgs, b[|b| - 1].parent.value) == Some(b[|b| - 2])
  {
    if |b| > 1 {
      assert LinksTo(msgs, b[|b| - 2], b[|b| - 1]);
    }
  }

  lemma LinkedSnoc(msgs: seq<Message>, b: seq<Message>, t: Message)
    requires Linked(msgs, b)
    requires b != [] ==> Truthy(t.parent) && Lookup(msgs, t.parent.value) == Some(b[|b| - 1])
    ensures Linked(msgs, b + [t])
  {
    var r := b + [t];
    forall i | 0 < i < |r| ensures LinksTo(msgs, r[i - 1], r[i]) {
      if i < |b| {
        assert r[i] == b[i] && r[i - 1] == b[i - 1];
        assert LinksTo(msgs, b[i - 1], b[i]);
      } else {
        assert r[i] == t && r[i - 1] == b[|b| - 1];
      }
    }
  }

  lemma LinkedPrefix(msgs: seq<Message>, b: seq<Message>, n: nat)
    requires Linked(msgs, b) && n <= |b|
    ensures Linked(msgs, b[..n])
  {
    var p := b[..n];
    forall i | 0 < i < |p| ensures LinksTo(msgs, p[i - 1], p[i]) {
      assert p[i] == b[i] && p[i - 1] == b[i - 1];
      assert LinksTo(msgs, b[i - 1], b[i]);
    }
  }

  /** Dropping the last message of a chain leaves the chain of its parent. */
  lemma ChainPrefix(msgs: seq<Message>, leaf: Option<string>, b: seq<Message>)
    requires IsChain(msgs, leaf, b) && |b| > 1
    ensures IsChain(msgs, b[|b| - 1].parent, b[..|b| - 1])
  {
    LinkedPrefix(msgs, b, |b| - 1);
    LastLink(msgs, b);
  }

  lemma ChainMembers(msgs: seq<Message>, leaf: Option<string>, b: seq<Message>)
    requires IsChain(msgs, leaf, b)
    ensures forall x :: x in b ==> x in msgs
  {
    forall i | 0 <= i < |b| ensures b[i] in msgs {
      if i < |b| - 1 {
        assert LinksTo(msgs, b[i], b[i + 1]);
      }
    }
  }

  /** A leaf determines its branch. */
  lemma {:induction false} ChainUnique(msgs: seq<Message>, leaf: Option<string>, b1: seq<Message>, b2: seq<Message>)
    requires IsChain(msgs, leaf, b1) && IsChain(msgs, leaf, b2)
    ensures b1 == b2
    decreases |b1|
  {
    LastLink(msgs, b1);
    LastLink(msgs, b2);
    if |b1| > 1 && |b2| > 1 {
      var last := b1[|b1| - 1];
      ChainPrefix(msgs, leaf, b1);
      ChainPrefix(msgs, leaf, b2);
      ChainUnique(msgs, last.parent, b1[..|b1| - 1], b2[..|b2| - 1]);
      assert b1 == b1[..|b1| - 1] + [last];
      assert b2 == b2[..|b2| - 1] + [last];
    }
  }

  /** Putting `t` after the branch of its parent gives the branch of `t`. */
  lemma ChainSnoc(msgs: seq<Message>, b: seq<Message>, t: Message)
    requires PathFrom(msgs, t.parent, b)
    requires Truthy(Some(t.id)) && Lookup(msgs, t.id) == Some(t)
    ensures IsChain(msgs, Some(t.id), b + [t])
  {
    LinkedSnoc(msgs, b, t);
    if b != [] {
      assert (b + [t])[0] == b[0];
    }
  }

  /** With parents stored before children, one step per message is enough
      for the walk to reach the root. */
  lemma {:induction false} WalkComplete(msgs: seq<Message>, cur: Option<string>, fuel: nat)
    requires ParentsEarlier(msgs)
    requires Truthy(cur) && Lookup(msgs, cur.value).Some?
    requires LastIndexOf(msgs, cur.value) < fuel
    ensures IsChain(msgs, cur, Walk(msgs, cur, fuel))
    decreases fuel
  {
    var i := LastIndexOf(msgs, cur.value);
    var m := msgs[i];
    var inner := Walk(msgs, m.parent, fuel - 1);
    assert ParentBefore(msgs, i);
    if Truthy(m.parent) && Lookup(msgs, m.parent.value).Some? {
      WalkComplete(msgs, m.parent, fuel - 1);
    }
    assert PathFrom(msgs, m.parent, inner);
    ChainSnoc(msgs, inner, m);
  }

  /** `getActiveBranch` returns exactly the branch ending at the leaf pointer. */
  lemma WalkIsPath(msgs: seq<Message>, p: Option<string>)
    requires ParentsEarlier(msgs)
    ensures PathFrom(msgs, p, Walk(msgs, p, |msgs|))
  {
    if Truthy(p) && Lookup(msgs, p.value).Some? {
      WalkComplete(msgs, p, |msgs|);
    }
  }

  /** For a stored chat whose parents come first, `getActiveBranch` returns
      exactly the root-to-leaf chain ending at the chat's leaf pointer, or
      nothing when that pointer resolves to no message. */
  lemma ActiveBranchIsPath(chats: seq<Chat>, chatId: string)
    requires GetChat(chats, chatId).Some? && ParentsEarlier(GetChat(chats, chatId).value.messages)
    ensures PathFrom(GetChat(chats, chatId).value.messages, GetChat(chats, chatId).value.currentLeaf,
                     GetActiveBranch(chats, chatId))
  {
    var c := GetChat(chats, chatId).value;
    WalkIsPath(c.messages, c.currentLeaf);
  }

  lemma AppendKeepsParentsEarlier(msgs: seq<Message>, m: Message)
    requires ParentsEarlier(msgs) && Fresh(msgs, m)
    ensures ParentsEarlier(msgs + [m])
  {
    var n := msgs + [m];
    forall k | 0 <= k < |n| ensures ParentBefore(n, k) {
      if n[k].parent.Some? {
        LookupAppend(msgs, m, n[k].parent.value);
        if k < |msgs| {
          assert n[k] == msgs[k];
          assert ParentBefore(msgs, k);
        }
      }
    }
  }

  lemma AppendKeepsUnique(msgs: seq<Message>, m: Message)
    requires UniqueMsgIds(msgs) && Fresh(msgs, m)
    ensures UniqueMsgIds(msgs + [m])
  {
    var n := msgs + [m];
    forall i, j | 0 <= i < j < |n| ensures MsgId(n[i]) != MsgId(n[j]) {
      assert n[i] == msgs[i];
      if j < |msgs| {
        assert n[j] == msgs[j];
      } else {
        assert msgs[i] in msgs;
      }
    }
  }

  /** Appending a fresh message keeps a chat well formed. */
  lemma AppendKeepsWellFormed(msgs: seq<Message>, m: Message)
    requires WellFormed(msgs) && Fresh(msgs, m)
    ensures WellFormed(msgs + [m])
  {
    AppendKeepsParentsEarlier(msgs, m);
    AppendKeepsUnique(msgs, m);
    assert forall x :: x in msgs + [m] ==> x in msgs || x == m;
  }

  /** A branch of the old list is still a branch after appending a fresh message. */
  lemma PathFromAppend(msgs: seq<Message>, p: Option<string>, b: seq<Message>, m: Message)
    requires PathFrom(msgs, p, b) && Fresh(msgs, m)
    requires p != Some(m.id)
    ensures PathFrom(msgs + [m], p, b)
  {
    if Truthy(p) {
      LookupAppend(msgs, m, p.value);
    }
    if b != [] {
      ChainMembers(msgs, p, b);
      forall i | 0 < i < |b| ensures LinksTo(msgs + [m], b[i - 1], b[i]) {
        assert LinksTo(msgs, b[i - 1], b[i]);
        LookupAppend(msgs, m, b[i].parent.value);
      }
      if Truthy(b[0].parent) {
        LookupAppend(msgs, m, b[0].parent.value);
      }
    }
  }

  /** Appending a fresh message under the leaf `p` extends the active branch
      by exactly that message. */
  lemma AppendExtends(msgs: seq<Message>, p: Option<string>, m: Message)
    requires ParentsEarlier(msgs) && Fresh(msgs, m) && m.parent == p
    ensures Walk(msgs + [m], Some(m.id), |msgs| + 1) == Walk(msgs, p, |msgs|) + [m]
  {
    var n := msgs + [m];
    AppendedChain(msgs, p, m);
    AppendKeepsParentsEarlier(msgs, m);
    LookupAppend(msgs, m, m.id);
    WalkComplete(n, Some(m.id), |n|);
    ChainUnique(n, Some(m.id), Walk(n, Some(m.id), |n|), Walk(msgs, p, |msgs|) + [m]);
  }

  /** The old branch of `p` followed by the appended child of `p` is the
      branch of that child. */
  lemma AppendedChain(msgs: seq<Message>, p: Option<string>, m: Message)
    requires ParentsEarlier(msgs) && Fresh(msgs, m) && m.parent == p
    ensures IsChain(msgs + [m], Some(m.id), Walk(msgs, p, |msgs|) + [m])
  {
    var b := Walk(msgs, p, |msgs|);
    WalkIsPath(msgs, p);
    PathFromAppend(msgs, p, b, m);
    LookupAppend(msgs, m, m.id);
    ChainSnoc(msgs + [m], b, m);
  }

  /** `filter(m => m.parentMessageId === parent && m.role === role)` */
  function SameSlot(msgs: seq<Message>, parent: Option<string>, role: Role): (r: seq<Message>)
    ensures |r| <= |msgs|
    ensures forall x :: multiset(r)[x] == if x.parent == parent && x.role == role then multiset(msgs)[x] else 0
  {
    if msgs == [] then []
    else
      assert msgs == [msgs[0]] + msgs[1..];
      (if msgs[0].parent == parent && msgs[0].role == role then [msgs[0]] else []) + SameSlot(msgs[1..], parent, role)
  }

  /** `filter(m => m.parentMessageId === id)` */
  function Children(msgs: seq<Message>, id: string): (r: seq<Message>)
    ensures forall x :: x in r ==> x in msgs && x.parent == Some(id)
  {
    if msgs == [] then []
    else (if msgs[0].parent == Some(id) then [msgs[0]] else []) + Children(msgs[1..], id)
  }

  /** Every stored child of `id` is listed: `Children` lists exactly the
      messages whose parent is `id`. */
  lemma {:induction false} ChildListed(msgs: seq<Message>, id: string, x: Message)
    requires x in msgs && x.parent == Some(id)
    ensures x in Children(msgs, id)
  {
    if msgs[0] != x {
      ChildListed(msgs[1..], id, x);
    }
  }

  datatype Siblings = Siblings(siblings: seq<Message>, currentIndex: int)

  /** The siblings of `m`, oldest first, with ties in storage order. */
  function SlotOf(msgs: seq<Message>, m: Message): (s: seq<Message>)
    ensures SortedBy(s, CreatedAtKey)
    ensures forall x :: multiset(s)[x] == if x.parent == m.parent && x.role == m.role then multiset(msgs)[x] else 0
  {
    SortBy(SameSlot(msgs, m.parent, m.role), CreatedAtKey)
  }

  /** `getSiblings` on one chat. */
  function SiblingsIn(c: Chat, messageId: string): (r: Siblings)
    ensures FindMessage(c.messages, messageId).None? ==> r == Siblings([], 0)
    ensures FindMessage(c.messages, messageId).Some? ==>
      r.siblings == SlotOf(c.messages, FindMessage(c.messages, messageId).value) &&
      0 <= r.currentIndex < |r.siblings| && r.siblings[r.currentIndex].id == messageId &&
      forall j :: 0 <= j < r.currentIndex ==> r.siblings[j].id != messageId
  {
    match FindMessage(c.messages, messageId)
    case None => Siblings([], 0)
    case Some(m) =>
      var s := SlotOf(c.messages, m);
      assert multiset(s)[m] > 0;
      assert m in s;
      Siblings(s, IndexOfMessage(s, messageId))
  }

  /** `getSiblings` */
  function GetSiblings(chats: seq<Chat>, chatId: string, messageId: string): (r: Siblings)
    ensures GetChat(chats, chatId).None? ==> r == Siblings([], 0)
    ensures GetChat(chats, chatId).Some? ==> r == SiblingsIn(GetChat(chats, chatId).value, messageId)
  {
    match GetChat(chats, chatId)
    case None => Siblings([], 0)
    case Some(c) => SiblingsIn(c, messageId)
  }

  /** Siblings created at the same instant keep the order they were stored in. */
  lemma SiblingsKeepTies(msgs: seq<Message>, m: Message, k: int)
    ensures WithKey(SlotOf(msgs, m), CreatedAtKey, k) == WithKey(SameSlot(msgs, m.parent, m.role), CreatedAtKey, k)
  {
    SortStable(SameSlot(msgs, m.parent, m.role), CreatedAtKey, k);
  }

  datatype Direction = Prev | Next

  function Step(i: int, dir: Direction): int {
    if dir == Prev then i - 1 else i + 1
  }

  /** The sibling `switchToSibling` moves to, if the step stays in range. */
  function SiblingTarget(s: Siblings, dir: Direction): (r: Option<Message>)
    ensures r.Some? <==> 0 <= Step(s.currentIndex, dir) < |s.siblings|
    ensures r.Some? ==> r.value in s.siblings
  {
    if |s.siblings| == 0 then None
    else
      var ni := Step(s.currentIndex, dir);
      if ni < 0 || ni >= |s.siblings| then None else Some(s.siblings[ni])
  }

  /** The child `findDeepestLeaf` moves to: the first one of least
      `createdAt`, which is where a stable sort by `createdAt` puts it
      (`DescentPicksOldest`). */
  function Oldest(kids: seq<Message>): (k: Message)
    requires kids != []
    ensures k in kids
    ensures forall x :: x in kids ==> k.createdAt <= x.createdAt
  {
    kids[FirstMinIndex(kids, CreatedAtKey)]
  }

  /** The children `findDeepestLeaf` moves through below `cur`, each time
      the oldest child of the one before. */
  function DescentNodes(msgs: seq<Message>, cur: string, fuel: nat): (path: seq<Message>)
    ensures |path| <= fuel
    ensures forall x :: x in path ==> x in msgs
    ensures ChildRun(cur, path)
    decreases fuel
  {
    var kids := Children(msgs, cur);
    if fuel == 0 || kids == [] then []
    else
      var k := Oldest(kids);
      var rest := DescentNodes(msgs, k.id, fuel - 1);
      ConsChildRun(cur, k, rest);
      [k] + rest
  }

  predicate ChildOf(p: Message, c: Message) {
    c.parent == Some(p.id)
  }

  /** Each message of `path` is a child of the one before it, and the first
      is a child of `cur`. */
  ghost predicate ChildRun(cur: string, path: seq<Message>) {
    (path != [] ==> path[0].parent == Some(cur)) &&
    forall i, j :: 0 <= i < j < |path| && j == i + 1 ==> ChildOf(path[i], path[j])
  }

  lemma ConsChildRun(cur: string, k: Message, rest: seq<Message>)
    requires k.parent == Some(cur) && ChildRun(k.id, rest)
    ensures ChildRun(cur, [k] + rest)
  {
    var path := [k] + rest;
    forall i, j | 0 <= i < j < |path| && j == i + 1 ensures ChildOf(path[i], path[j]) {
      assert path[j] == rest[j - 1];
      if i > 0 {
        assert path[i] == rest[i - 1];
      }
    }
  }

  /** The id the descent from `cur` along `path` stops at. */
  function EndOf(cur: string, path: seq<Message>): string {
    if path == [] then cur else path[|path| - 1].id
  }

  /** `findDeepestLeaf` */
  function FindDeepestLeaf(c: Chat, messageId: string): (leaf: string)
    ensures leaf == messageId || exists x :: x in c.messages && x.id == leaf
  {
    var path := DescentNodes(c.messages, messageId, |c.messages|);
    assert path != [] ==> path[|path| - 1] in c.messages;
    EndOf(messageId, path)
  }

  /** One step of the descent: it ends where the descent from the oldest
      child ends. */
  lemma DescentStep(msgs: seq<Message>, cur: string, fuel: nat, k: Message)
    requires fuel > 0 && Children(msgs, cur) != [] && k == Oldest(Children(msgs, cur))
    ensures EndOf(cur, DescentNodes(msgs, cur, fuel)) == EndOf(k.id, DescentNodes(msgs, k.id, fuel - 1))
  {
    var rest := DescentNodes(msgs, k.id, fuel - 1);
    DescentCons(msgs, cur, fuel, k);
    EndCons(cur, k, rest);
  }

  lemma DescentCons(msgs: seq<Message>, cur: string, fuel: nat, k: Message)
    requires fuel > 0 && Children(msgs, cur) != [] && k == Oldest(Children(msgs, cur))
    ensures DescentNodes(msgs, cur, fuel) == [k] + DescentNodes(msgs, k.id, fuel - 1)
  {
  }

  lemma EndCons(cur: string, k: Message, rest: seq<Message>)
    ensures EndOf(cur, [k] + rest) == EndOf(k.id, rest)
  {
  }

  /** Each step of the descent takes the head of the children sorted by
      `createdAt`: the first child of least `createdAt`. */
  lemma DescentPicksOldest(msgs: seq<Message>, cur: string, fuel: nat)
    requires fuel > 0 && Children(msgs, cur) != []
    ensures var kids := Children(msgs, cur);
      DescentNodes(msgs, cur, fuel)[0] == SortBy(kids, CreatedAtKey)[0] == kids[FirstMinIndex(kids, CreatedAtKey)]
  {
    SortHeadIsFirstMin(Children(msgs, cur), CreatedAtKey);
  }

  /** With parents stored before children the descent ends at a message
      that has no children. */
  lemma {:induction false} DescentReachesLeaf(msgs: seq<Message>, cur: string, fuel: nat)
    requires ParentsEarlier(msgs)
    requires |msgs| - 1 - LastIndexOf(msgs, cur) <= fuel
    ensures Children(msgs, EndOf(cur, DescentNodes(msgs, cur, fuel))) == []
    decreases fuel
  {
    if Children(msgs, cur) == [] {
      LeafHere(msgs, cur, fuel);
    } else {
      var k := Oldest(Children(msgs, cur));
      OldestChildLater(msgs, cur, fuel, k);
      DescentReachesLeaf(msgs, k.id, fuel - 1);
      LeafBelow(msgs, cur, fuel, k);
    }
  }

  lemma LeafHere(msgs: seq<Message>, cur: string, fuel: nat)
    requires Children(msgs, cur) == []
    ensures Children(msgs, EndOf(cur, DescentNodes(msgs, cur, fuel))) == []
  {
  }

  lemma LeafBelow(msgs: seq<Message>, cur: string, fuel: nat, k: Message)
    requires fuel > 0 && Children(msgs, cur) != [] && k == Oldest(Children(msgs, cur))
    requires Children(msgs, EndOf(k.id, DescentNodes(msgs, k.id, fuel - 1))) == []
    ensures Children(msgs, EndOf(cur, DescentNodes(msgs, cur, fuel))) == []
  {
    DescentStep(msgs, cur, fuel, k);
  }

  /** The child the descent moves to is stored after its parent, so the
      budget left for the descent below it still covers the rest. */
  lemma OldestChildLater(msgs: seq<Message>, cur: string, fuel: nat, k: Message)
    requires ParentsEarlier(msgs) && Children(msgs, cur) != [] && k == Oldest(Children(msgs, cur))
    requires |msgs| - 1 - LastIndexOf(msgs, cur) <= fuel
    ensures fuel > 0 && |msgs| - 1 - LastIndexOf(msgs, k.id) <= fuel - 1
  {
    var j :| 0 <= j < |msgs| && msgs[j] == k;
    LastIndexOfAtLeast(msgs, j);
    assert ParentBefore(msgs, j);
  }

  /** `findDeepestLeaf` returns a message without children. */
  lemma DeepestLeafIsLeaf(c: Chat, messageId: string)
    requires ParentsEarlier(c.messages)
    ensures Children(c.messages, FindDeepestLeaf(c, messageId)) == []
  {
    DescentReachesLeaf(c.messages, messageId, |c.messages|);
  }

  /** Extending a branch by the descent below its last message gives the
      branch of the message the descent stops at. */
  lemma DescentChain(msgs: seq<Message>, cur: string, b: seq<Message>, fuel: nat)
    requires UniqueMsgIds(msgs) && IdsTruthy(msgs)
    requires IsChain(msgs, Some(cur), b)
    ensures IsChain(msgs, Some(EndOf(cur, DescentNodes(msgs, cur, fuel))), b + DescentNodes(msgs, cur, fuel))
  {
    ExtendByChildren(msgs, cur, b, DescentNodes(msgs, cur, fuel));
  }

  /** A branch followed by a run of children, each the child of the one
      before, is the branch of the last child. */
  lemma {:induction false} ExtendByChildren(msgs: seq<Message>, cur: string, b: seq<Message>, path: seq<Message>)
    requires UniqueMsgIds(msgs) && IdsTruthy(msgs)
    requires IsChain(msgs, Some(cur), b)
    requires forall x :: x in path ==> x in msgs
    requires ChildRun(cur, path)
    ensures IsChain(msgs, Some(EndOf(cur, path)), b + path)
    decreases |path|
  {
    if path == [] {
      assert b + path == b;
    } else {
      var p := path[..|path| - 1];
      ChildRunPrefix(msgs, cur, path);
      ExtendByChildren(msgs, cur, b, p);
      ExtendOne(msgs, cur, b, path);
    }
  }

  lemma ChildRunPrefix(msgs: seq<Message>, cur: string, path: seq<Message>)
    requires path != []
    requires forall x :: x in path ==> x in msgs
    requires ChildRun(cur, path)
    ensures var p := path[..|path| - 1];
      (forall x :: x in p ==> x in msgs) && ChildRun(cur, p) &&
      path[|path| - 1].parent == Some(EndOf(cur, p)) && path[|path| - 1] in msgs
  {
    var n := |path| - 1;
    var p := path[..n];
    assert forall i :: 0 <= i < |p| ==> p[i] == path[i];
    if n > 0 {
      assert ChildOf(path[n - 1], path[n]);
    }
  }

  lemma ExtendOne(msgs: seq<Message>, cur: string, b: seq<Message>, path: seq<Message>)
    requires UniqueMsgIds(msgs) && IdsTruthy(msgs)
    requires path != []
    requires IsChain(msgs, Some(EndOf(cur, path[..|path| - 1])), b + path[..|path| - 1])
    requires path[|path| - 1].parent == Some(EndOf(cur, path[..|path| - 1])) && path[|path| - 1] in msgs
    ensures IsChain(msgs, Some(EndOf(cur, path)), b + path)
  {
    var n := |path| - 1;
    var p := path[..n];
    DescendOneChain(msgs, EndOf(cur, p), b + p, path[n]);
    assert b + path == (b + p) + [path[n]];
  }

  lemma DescendOneChain(msgs: seq<Message>, cur: string, b: seq<Message>, k: Message)
    requires UniqueMsgIds(msgs) && IdsTruthy(msgs)
    requires IsChain(msgs, Some(cur), b)
    requires k in msgs && k.parent == Some(cur)
    ensures IsChain(msgs, Some(k.id), b + [k])
  {
    var found := Lookup(msgs, k.id).value;
    UniqueMessage(msgs, found, k);
    ChainSnoc(msgs, b, k);
  }

  /** `switchToSibling` on one chat: the chat with its new leaf pointer, if
      the step lands on a sibling. */
  function SwitchIn(c: Chat, messageId: string, dir: Direction): (r: Option<Chat>)
    ensures r.Some? <==> SiblingTarget(SiblingsIn(c, messageId), dir).Some?
    ensures r.Some? ==> r.value == c.(currentLeaf := Some(FindDeepestLeaf(c, SiblingTarget(SiblingsIn(c, messageId), dir).value.id)))
  {
    match SiblingTarget(SiblingsIn(c, messageId), dir)
    case None => None
    case Some(t) => Some(c.(currentLeaf := Some(FindDeepestLeaf(c, t.id))))
  }

  /** `switchToSibling`: a no-op unless the chat exists and the step lands on a sibling. */
  function SwitchToSibling(chats: seq<Chat>, chatId: string, messageId: string, dir: Direction, now: int): (r: seq<Chat>)
    ensures GetChat(chats, chatId).None? ==> r == chats
    ensures GetChat(chats, chatId).Some? && SwitchIn(GetChat(chats, chatId).value, messageId, dir).None? ==> r == chats
  {
    match GetChat(chats, chatId)
    case None => chats
    case Some(c) =>
      match SwitchIn(c, messageId, dir)
      case None => chats
      case Some(c2) => SaveChat(chats, c2, now)
  }

  /** After a switch the active branch is the branch down to the chosen
      sibling followed by the oldest-first descent below it. */
  lemma SwitchShowsSibling(c: Chat, messageId: string, dir: Direction)
    requires WellFormed(c.messages)
    requires SwitchIn(c, messageId, dir).Some?
    ensures var t := SiblingTarget(SiblingsIn(c, messageId), dir).value;
      ActiveBranch(SwitchIn(c, messageId, dir).value) ==
        Walk(c.messages, t.parent, |c.messages|) + [t] + DescentNodes(c.messages, t.id, |c.messages|)
  {
    var t := SiblingTarget(SiblingsIn(c, messageId), dir).value;
    var m := FindMessage(c.messages, messageId).value;
    assert multiset(SlotOf(c.messages, m))[t] > 0;
    BranchThroughDescent(c.messages, t);
  }

  /** The branch ending at the deepest leaf below a stored message `t` is
      the branch of `t` followed by the descent below it. */
  lemma BranchThroughDescent(msgs: seq<Message>, t: Message)
    requires WellFormed(msgs) && t in msgs
    ensures var path := DescentNodes(msgs, t.id, |msgs|);
      Walk(msgs, Some(EndOf(t.id, path)), |msgs|) == Walk(msgs, t.parent, |msgs|) + [t] + path
  {
    var p := Walk(msgs, t.parent, |msgs|);
    WalkIsPath(msgs, t.parent);
    var found := Lookup(msgs, t.id).value;
    UniqueMessage(msgs, found, t);
    ChainSnoc(msgs, p, t);
    DescentChain(msgs, t.id, p + [t], |msgs|);
    var path := DescentNodes(msgs, t.id, |msgs|);
    var leaf := EndOf(t.id, path);
    WalkComplete(msgs, Some(leaf), |msgs|);
    ChainUnique(msgs, Some(leaf), Walk(msgs, Some(leaf), |msgs|), p + [t] + path);
  }

  /** Stepping to the next sibling and back returns to the message one started from. */
  lemma SwitchRoundTrip(c: Chat, messageId: string)
    requires UniqueMsgIds(c.messages)
    requires SiblingTarget(SiblingsIn(c, messageId), Next).Some?
    ensures var t := SiblingTarget(SiblingsIn(c, messageId), Next).value;
      SiblingTarget(SiblingsIn(c, t.id), Prev) == FindMessage(c.messages, messageId)
  {
    var s := SiblingsIn(c, messageId);
    var i := s.currentIndex;
    StepForward(s.siblings, i);
    assert s == Siblings(s.siblings, i);
    BackStep(c, messageId, i);
    CurrentIsFound(c, messageId);
  }

  lemma StepForward(sib: seq<Message>, i: int)
    requires 0 <= i && i + 1 < |sib|
    ensures SiblingTarget(Siblings(sib, i), Next) == Some(sib[i + 1])
  {
  }

  /** The message at the current index is the one `find` returns. */
  lemma CurrentIsFound(c: Chat, messageId: string)
    requires UniqueMsgIds(c.messages)
    requires FindMessage(c.messages, messageId).Some?
    ensures Some(SiblingsIn(c, messageId).siblings[SiblingsIn(c, messageId).currentIndex]) == FindMessage(c.messages, messageId)
  {
    var s := SiblingsIn(c, messageId);
    var back := s.siblings[s.currentIndex];
    assert multiset(s.siblings)[back] > 0;
    UniqueMessage(c.messages, back, FindMessage(c.messages, messageId).value);
  }

  lemma BackStep(c: Chat, messageId: string, i: int)
    requires UniqueMsgIds(c.messages)
    requires FindMessage(c.messages, messageId).Some?
    requires i == SiblingsIn(c, messageId).currentIndex && i + 1 < |SiblingsIn(c, messageId).siblings|
    ensures SiblingTarget(SiblingsIn(c, SiblingsIn(c, messageId).siblings[i + 1].id), Prev) ==
      Some(SiblingsIn(c, messageId).siblings[i])
  {
    var sib := SiblingsIn(c, messageId).siblings;
    SiblingsInOfSibling(c, messageId, i + 1);
    StepBack(sib, i);
  }

  lemma StepBack(sib: seq<Message>, i: int)
    requires 0 <= i && i + 1 < |sib|
    ensures SiblingTarget(Siblings(sib, i + 1), Prev) == Some(sib[i])
  {
  }

  /** Listing the siblings of a sibling gives the same list, positioned at that sibling. */
  lemma SiblingsInOfSibling(c: Chat, messageId: string, k: int)
    requires UniqueMsgIds(c.messages)
    requires FindMessage(c.messages, messageId).Some?
    requires 0 <= k < |SiblingsIn(c, messageId).siblings|
    ensures SiblingsIn(c, SiblingsIn(c, messageId).siblings[k].id) == Siblings(SiblingsIn(c, messageId).siblings, k)
  {
    SiblingsOfSibling(c, messageId, k);
  }

  /** A sibling's own sibling list is the same list, and its ids are distinct. */
  lemma SiblingsOfSibling(c: Chat, messageId: string, k: int)
    requires UniqueMsgIds(c.messages)
    requires FindMessage(c.messages, messageId).Some?
    requires 0 <= k < |SiblingsIn(c, messageId).siblings|
    ensures UniqueMsgIds(SiblingsIn(c, messageId).siblings)
    ensures FindMessage(c.messages, SiblingsIn(c, messageId).siblings[k].id).Some?
    ensures SiblingsIn(c, SiblingsIn(c, messageId).siblings[k].id).siblings == SiblingsIn(c, messageId).siblings
  {
    var msgs := c.messages;
    var m := FindMessage(msgs, messageId).value;
    var s := SiblingsIn(c, messageId).siblings;
    SlotDistinct(msgs, m);
    SlotMemberFound(msgs, m, s[k]);
  }

  /** A member of a slot is the message found under its id, and shares the slot. */
  lemma SlotMemberFound(msgs: seq<Message>, m: Message, t: Message)
    requires UniqueMsgIds(msgs)
    requires t in SlotOf(msgs, m)
    ensures FindMessage(msgs, t.id) == Some(t)
    ensures SlotOf(msgs, t) == SlotOf(msgs, m)
  {
    assert multiset(SlotOf(msgs, m))[t] > 0;
    var ft := FindMessage(msgs, t.id).value;
    UniqueMessage(msgs, ft, t);
  }

  lemma {:induction false} SameSlotDistinct(msgs: seq<Message>, parent: Option<string>, role: Role)
    requires UniqueMsgIds(msgs)
    ensures UniqueMsgIds(SameSlot(msgs, parent, role))
  {
    if msgs != [] {
      var rest := SameSlot(msgs[1..], parent, role);
      TailDistinct(msgs);
      SameSlotDistinct(msgs[1..], parent, role);
      forall x | x in rest ensures x.id != msgs[0].id {
        assert multiset(rest)[x] > 0;
        assert x in msgs[1..];
      }
      if msgs[0].parent == parent && msgs[0].role == role {
        DistinctCons(msgs[0], rest);
        assert SameSlot(msgs, parent, role) == [msgs[0]] + rest;
      } else {
        assert SameSlot(msgs, parent, role) == rest;
      }
    }
  }

  lemma TailDistinct(msgs: seq<Message>)
    requires UniqueMsgIds(msgs) && msgs != []
    ensures UniqueMsgIds(msgs[1..])
    ensures forall x :: x in msgs[1..] ==> x.id != msgs[0].id
  {
    var t := msgs[1..];
    forall a, b | 0 <= a < b < |t| ensures MsgId(t[a]) != MsgId(t[b]) {
      assert t[a] == msgs[a + 1] && t[b] == msgs[b + 1];
    }
    forall x | x in t ensures x.id != msgs[0].id {
      var j :| 0 <= j < |t| && t[j] == x;
      assert MsgId(msgs[0]) != MsgId(msgs[j + 1]);
    }
  }

  lemma DistinctCons(h: Message, rest: seq<Message>)
    requires UniqueMsgIds(rest)
    requires forall x :: x in rest ==> x.id != h.id
    ensures UniqueMsgIds([h] + rest)
  {
    var r := [h] + rest;
    forall a, b | 0 <= a < b < |r| ensures MsgId(r[a]) != MsgId(r[b]) {
      assert r[b] == rest[b - 1];
      if a > 0 {
        assert r[a] == rest[a - 1];
      }
    }
  }

  lemma SlotDistinct(msgs: seq<Message>, m: Message)
    requires UniqueMsgIds(msgs)
    ensures UniqueMsgIds(SlotOf(msgs, m))
  {
    SameSlotDistinct(msgs, m.parent, m.role);
    SortDistinct(SameSlot(msgs, m.parent, m.role), CreatedAtKey, MsgId);
  }

  /** Cutting a chain just before its `i`-th message leaves the chain of
      that message's parent. */
  lemma ChainCut(msgs: seq<Message>, leaf: Option<string>, b: seq<Message>, i: int)
    requires IsChain(msgs, leaf, b) && 0 < i < |b|
    ensures IsChain(msgs, b[i].parent, b[..i])
  {
    LinkedPrefix(msgs, b, i);
    assert LinksTo(msgs, b[i - 1], b[i]);
  }

  /** Walking up from the parent of a message of the active branch gives the
      part of the branch above that message. */
  lemma WalkToPrefix(msgs: seq<Message>, p: Option<string>, i: int)
    requires ParentsEarlier(msgs)
    requires 0 <= i < |Walk(msgs, p, |msgs|)|
    ensures Walk(msgs, Walk(msgs, p, |msgs|)[i].parent, |msgs|) == Walk(msgs, p, |msgs|)[..i]
  {
    var b := Walk(msgs, p, |msgs|);
    WalkIsPath(msgs, p);
    if i > 0 {
      ChainCut(msgs, p, b, i);
      WalkComplete(msgs, b[i].parent, |msgs|);
      ChainUnique(msgs, b[i].parent, Walk(msgs, b[i].parent, |msgs|), b[..i]);
    }
  }

  /** `addMessage` of a fresh message extends the stored active branch of
      that chat by exactly the message, below the branch of its parent. */
  lemma AddMessageExtends(chats: seq<Chat>, chatId: string, m: Message, now: int)
    requires UniqueIds(chats) && GetChat(chats, chatId).Some?
    requires WellFormed(GetChat(chats, chatId).value.messages)
    requires Fresh(GetChat(chats, chatId).value.messages, m)
    ensures UniqueIds(AddMessage(chats, chatId, m, now))
    ensures GetChat(AddMessage(chats, chatId, m, now), chatId).Some?
    ensures GetChat(AddMessage(chats, chatId, m, now), chatId).value.messages
      == GetChat(chats, chatId).value.messages + [m]
    ensures WellFormed(GetChat(AddMessage(chats, chatId, m, now), chatId).value.messages)
    ensures GetActiveBranch(AddMessage(chats, chatId, m, now), chatId)
      == Walk(GetChat(chats, chatId).value.messages, m.parent, |GetChat(chats, chatId).value.messages|) + [m]
  {
    var msgs := GetChat(chats, chatId).value.messages;
    AddMessageEffect(chats, chatId, m, now, chatId);
    AppendKeepsWellFormed(msgs, m);
    AppendExtends(msgs, m.parent, m);
  }

  /** After `switchToSibling` the stored active branch is the branch through
      the chosen sibling down to its deepest leaf. */
  lemma SwitchToSiblingBranch(chats: seq<Chat>, chatId: string, messageId: string, dir: Direction, now: int)
    requires UniqueIds(chats) && GetChat(chats, chatId).Some?
    requires WellFormed(GetChat(chats, chatId).value.messages)
    requires SwitchIn(GetChat(chats, chatId).value, messageId, dir).Some?
    ensures GetActiveBranch(SwitchToSibling(chats, chatId, messageId, dir, now), chatId)
      == ActiveBranch(SwitchIn(GetChat(chats, chatId).value, messageId, dir).value)
  {
    var c := GetChat(chats, chatId).value;
    var c2 := SwitchIn(c, messageId, dir).value;
    SwitchLeafTruthy(c, messageId, dir);
    SwitchSaves(chats, chatId, messageId, dir, now);
    SavedBranch(chats, c2, now);
  }

  /** A switch that lands on a sibling saves the switched chat under its id. */
  lemma SwitchSaves(chats: seq<Chat>, chatId: string, messageId: string, dir: Direction, now: int)
    requires GetChat(chats, chatId).Some?
    requires SwitchIn(GetChat(chats, chatId).value, messageId, dir).Some?
    ensures SwitchIn(GetChat(chats, chatId).value, messageId, dir).value.id == chatId
    ensures SwitchToSibling(chats, chatId, messageId, dir, now)
      == SaveChat(chats, SwitchIn(GetChat(chats, chatId).value, messageId, dir).value, now)
  {
  }

  /** Saving a chat over an existing one makes its active branch the stored one. */
  lemma SavedBranch(chats: seq<Chat>, c: Chat, now: int)
    requires UniqueIds(chats) && GetChat(chats, c.id).Some?
    requires Truthy(c.currentLeaf)
    ensures GetActiveBranch(SaveChat(chats, c, now), c.id) == ActiveBranch(c)
  {
    SaveChatLookup(chats, c, now, c.id);
  }

  /** The leaf a switch moves to is a stored message's id, hence truthy. */
  lemma SwitchLeafTruthy(c: Chat, messageId: string, dir: Direction)
    requires IdsTruthy(c.messages)
    requires SwitchIn(c, messageId, dir).Some?
    ensures Truthy(SwitchIn(c, messageId, dir).value.currentLeaf)
  {
    var t := SiblingTarget(SiblingsIn(c, messageId), dir).value;
    var m := FindMessage(c.messages, messageId).value;
    assert t in multiset(SameSlot(c.messages, m.parent, m.role));
    assert t in c.messages;
  }
}
