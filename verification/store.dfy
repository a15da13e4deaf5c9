/** The persisted chat list of the local conversation store: chat records,
    their lookup, the save that keeps the list newest-first, deletion,
    creation, renaming, appending a message, and title generation.

    The list that `localStorage` holds as JSON is a plain `seq<Chat>`; every
    operation takes the list and returns the list it would write back. The
    clock (`new Date()`) is the parameter `now`, and `crypto.randomUUID` is a
    caller-supplied id that must be fresh. */
module Store {
  import opened Common
  import opened Text
  import opened Sorting

  datatype Role = User | Assistant | System

  /** A node of a conversation tree; `parent` is `parentMessageId`. */
  datatype Message = Message(id: string, role: Role, content: string, createdAt: int, parent: Option<string>)

  /** A conversation: an append-only message list whose parent links form a
      forest, and the pointer that selects the active branch. */
  datatype Chat = Chat(
    id: string,
    title: string,
    messages: seq<Message>,
    currentLeaf: Option<string>,
    createdAt: int,
    updatedAt: int)

  const DefaultTitle := "New Chat"
  const TitleWords := 6
  const Ellipsis := "..."

  function ChatId(c: Chat): string {
    c.id
  }

  /** The sort key of `saveChat`: larger `updatedAt` sorts first. */
  function Recency(c: Chat): int {
    -c.updatedAt
  }

  /** Every chat the application writes has a fresh id. */
  ghost predicate UniqueIds(chats: seq<Chat>) {
    DistinctBy(chats, ChatId)
  }

  ghost predicate NewestFirst(chats: seq<Chat>) {
    forall i, j :: 0 <= i < j < |chats| ==> chats[i].updatedAt >= chats[j].updatedAt
  }

  /** `chats.findIndex(c => c.id === id)` */
  function IndexOfChat(chats: seq<Chat>, id: string): (i: int)
    ensures -1 <= i < |chats|
    ensures i >= 0 ==> chats[i].id == id
    ensures forall j :: 0 <= j < |chats| && (i < 0 || j < i) ==> chats[j].id != id
  {
    if chats == [] then -1
    else if chats[0].id == id then 0
    else
      var k := IndexOfChat(chats[1..], id);
      if k < 0 then -1 else k + 1
  }

  /** `messages.findIndex(m => m.id === id)` */
  function IndexOfMessage(b: seq<Message>, id: string): (i: int)
    ensures -1 <= i < |b|
    ensures i >= 0 ==> b[i].id == id
    ensures forall j :: 0 <= j < |b| && (i < 0 || j < i) ==> b[j].id != id
  {
    if b == [] then -1
    else if b[0].id == id then 0
    else
      var k := IndexOfMessage(b[1..], id);
      if k < 0 then -1 else k + 1
  }

  /** `getChat`: the first chat with the id, if any. */
  function GetChat(chats: seq<Chat>, id: string): (r: Option<Chat>)
    ensures r.None? <==> forall c :: c in chats ==> c.id != id
    ensures r.Some? ==> r.value in chats && r.value.id == id
  {
    var i := IndexOfChat(chats, id);
    if i < 0 then None else Some(chats[i])
  }

  /** The list `saveChat` builds before sorting: the chat replaces the first
      one with its id (with a refreshed `updatedAt`) or is appended unchanged. */
  function Upsert(chats: seq<Chat>, chat: Chat, now: int): seq<Chat> {
    var i := IndexOfChat(chats, chat.id);
    if i >= 0 then chats[i := chat.(updatedAt := now)] else chats + [chat]
  }

  /** `saveChat` */
  function SaveChat(chats: seq<Chat>, chat: Chat, now: int): (r: seq<Chat>)
    ensures NewestFirst(r)
    ensures IndexOfChat(chats, chat.id) >= 0 ==>
      |r| == |chats| &&
      multiset(r) == multiset(chats) - multiset{chats[IndexOfChat(chats, chat.id)]} + multiset{chat.(updatedAt := now)}
    ensures IndexOfChat(chats, chat.id) < 0 ==>
      |r| == |chats| + 1 && multiset(r) == multiset(chats) + multiset{chat}
  {
    var r := SortBy(Upsert(chats, chat, now), Recency);
    assert forall i :: 0 <= i < |r| ==> Recency(r[i]) == -r[i].updatedAt;
    r
  }

  /** `deleteChat`: every chat with the id is dropped, the rest keep their order. */
  function DeleteChat(chats: seq<Chat>, id: string): (r: seq<Chat>)
    ensures forall c :: c in r <==> c in chats && c.id != id
    ensures GetChat(r, id) == None
  {
    if chats == [] then []
    else (if chats[0].id == id then [] else [chats[0]]) + DeleteChat(chats[1..], id)
  }

  /** Deleting from a concatenation deletes from each part: the chats that
      remain keep their storage order. */
  lemma {:induction false} DeleteChatAppend(a: seq<Chat>, b: seq<Chat>, id: string)
    ensures DeleteChat(a + b, id) == DeleteChat(a, id) + DeleteChat(b, id)
  {
    if a != [] {
      assert a == [a[0]] + a[1..];
      assert a + b == [a[0]] + (a[1..] + b);
      DeleteChatCons(a[0], a[1..], id);
      DeleteChatCons(a[0], a[1..] + b, id);
      DeleteChatAppend(a[1..], b, id);
      var h := if a[0].id == id then [] else [a[0]];
      SeqAssoc(h, DeleteChat(a[1..], id), DeleteChat(b, id));
    } else {
      assert a + b == b;
    }
  }

  lemma DeleteChatCons(h: Chat, t: seq<Chat>, id: string)
    ensures DeleteChat([h] + t, id) == (if h.id == id then [] else [h]) + DeleteChat(t, id)
  {
    assert ([h] + t)[0] == h;
    assert ([h] + t)[1..] == t;
  }

  /** The record `createChat` builds: `title || 'New Chat'`, no messages, no leaf. */
  function NewChat(id: string, title: string, now: int): Chat {
    Chat(id, if title == "" then DefaultTitle else title, [], None, now, now)
  }

  /** `createChat`: the new chat and the saved list. */
  function CreateChat(chats: seq<Chat>, title: string, freshId: string, now: int): (r: (Chat, seq<Chat>))
    requires GetChat(chats, freshId) == None
    ensures r.0.id == freshId && r.0.messages == [] && r.0.currentLeaf == None
    ensures r.0.title != ""
    ensures title != "" ==> r.0.title == title
    ensures title == "" ==> r.0.title == DefaultTitle
    ensures r.0.createdAt == now && r.0.updatedAt == now
    ensures multiset(r.1) == multiset(chats) + multiset{r.0}
    ensures GetChat(r.1, freshId) == Some(r.0)
  {
    var c := NewChat(freshId, title, now);
    SaveChatFindsNew(chats, c, now);
    (c, SaveChat(chats, c, now))
  }

  /** `updateChatTitle`: a no-op for an unknown id. */
  function UpdateChatTitle(chats: seq<Chat>, id: string, title: string, now: int): (r: seq<Chat>)
    ensures GetChat(chats, id).None? ==> r == chats
    ensures GetChat(chats, id).Some? ==> |r| == |chats|
  {
    match GetChat(chats, id)
    case None => chats
    case Some(c) => SaveChat(chats, c.(title := title), now)
  }

  /** `addMessage`: appends the message and makes it the leaf; a no-op for an unknown chat. */
  function AddMessage(chats: seq<Chat>, chatId: string, m: Message, now: int): (r: seq<Chat>)
    ensures GetChat(chats, chatId).None? ==> r == chats
    ensures GetChat(chats, chatId).Some? ==> |r| == |chats|
  {
    match GetChat(chats, chatId)
    case None => chats
    case Some(c) => SaveChat(chats, c.(messages := c.messages + [m], currentLeaf := Some(m.id)), now)
  }

  /** The first six words of the trimmed text, joined by single spaces. */
  function TitleStem(first: string): (stem: string)
    ensures Words(stem) == Words(Trim(first))[..Min(TitleWords, |Words(Trim(first))|)]
    ensures stem == Join(Words(stem), " ")
    ensures |stem| <= |first|
  {
    var ws := Words(Trim(first));
    var n := Min(TitleWords, |ws|);
    var stem := Join(ws[..n], " ");
    assert forall w :: w in ws[..n] ==> w in ws;
    WordsOfJoin(ws[..n]);
    StemShorter(Trim(first), n);
    stem
  }

  lemma SplitAt<T>(s: seq<T>, n: nat)
    requires n <= |s|
    ensures s == s[..n] + s[n..] && s[..|s|] == s
  {
  }

  /** Joining a prefix of the words is no longer than joining them all. */
  lemma StemShorter(s: string, n: nat)
    requires n <= |Words(s)|
    ensures |Join(Words(s)[..n], " ")| <= |s|
  {
    var ws := Words(s);
    JoinWordsShorter(s);
    SplitAt(ws, n);
    if 0 < n < |ws| {
      JoinAppend(ws[..n], ws[n..], " ");
    }
  }

  /** `generateTitle`: the stem, with `...` appended exactly when the stem
      is shorter than the original text. */
  function GenerateTitle(first: string): (r: string)
    ensures r == TitleStem(first) || r == TitleStem(first) + Ellipsis
    ensures StartsWith(r, TitleStem(first))
    ensures |r| <= |first| + |Ellipsis|
    ensures r == TitleStem(first) <==> |first| <= |TitleStem(first)|
  {
    var stem := TitleStem(first);
    if |stem| < |first| then stem + Ellipsis else stem
  }

  /** A message with more than six words always gets an ellipsis. */
  lemma GenerateTitleLong(first: string)
    requires |Words(Trim(first))| > TitleWords
    ensures GenerateTitle(first) == TitleStem(first) + Ellipsis
    ensures |Words(TitleStem(first))| == TitleWords
  {
    var ws := Words(Trim(first));
    var stem := TitleStem(first);
    assert Min(TitleWords, |ws|) == TitleWords;
    assert stem == Join(ws[..TitleWords], " ");
    SplitAt(ws, TitleWords);
    JoinAppend(ws[..TitleWords], ws[TitleWords..], " ");
    JoinWordsShorter(Trim(first));
    assert |stem| < |first|;
  }

  /** A message that already is at most six single-spaced words is its own title. */
  lemma GenerateTitleShort(ws: seq<string>)
    requires forall w :: w in ws ==> w != [] && NoSpace(w)
    requires |ws| <= TitleWords
    ensures GenerateTitle(Join(ws, " ")) == Join(ws, " ")
  {
    var first := Join(ws, " ");
    JoinOfWordsTrimmed(ws);
    WordsOfJoin(ws);
    assert Words(Trim(first)) == ws;
    assert Min(TitleWords, |ws|) == |ws|;
    SplitAt(ws, |ws|);
    assert TitleStem(first) == first;
  }

  lemma GetChatCons(c: Chat, rest: seq<Chat>, id: string)
    ensures GetChat([c] + rest, id) == if c.id == id then Some(c) else GetChat(rest, id)
  {
    assert ([c] + rest)[1..] == rest;
  }

  /** Saving a chat under a new id finds exactly that chat afterwards. */
  lemma SaveChatFindsNew(chats: seq<Chat>, chat: Chat, now: int)
    requires GetChat(chats, chat.id) == None
    ensures GetChat(SaveChat(chats, chat, now), chat.id) == Some(chat)
  {
    var r := SaveChat(chats, chat, now);
    assert chat in multiset(r);
    forall d | d in r && d.id == chat.id ensures d == chat {
      assert d in multiset(r);
    }
    OnlyChatWithId(r, chat);
  }

  /** In a list with unique ids, a member is the chat found for its id. */
  lemma OnlyChatWithId(chats: seq<Chat>, c: Chat)
    requires c in chats
    requires forall d :: d in chats && d.id == c.id ==> d == c
    ensures GetChat(chats, c.id) == Some(c)
  {
  }

  lemma UniqueMember(chats: seq<Chat>, c: Chat, d: Chat)
    requires UniqueIds(chats)
    requires c in chats && d in chats
    ensures c.id == d.id ==> c == d
  {
    var i :| 0 <= i < |chats| && chats[i] == c;
    var j :| 0 <= j < |chats| && chats[j] == d;
    if i < j {
      assert ChatId(chats[i]) != ChatId(chats[j]);
    } else if j < i {
      assert ChatId(chats[j]) != ChatId(chats[i]);
    }
  }

  lemma UpsertUnique(chats: seq<Chat>, chat: Chat, now: int)
    requires UniqueIds(chats)
    ensures UniqueIds(Upsert(chats, chat, now))
  {
    var i := IndexOfChat(chats, chat.id);
    var u := Upsert(chats, chat, now);
    forall a, b | 0 <= a < b < |u| ensures ChatId(u[a]) != ChatId(u[b]) {
      if i < 0 && b == |chats| {
        assert u[a] == chats[a];
      } else {
        assert ChatId(u[a]) == ChatId(chats[a]) && ChatId(u[b]) == ChatId(chats[b]);
      }
    }
  }

  /** Saving keeps ids unique. */
  lemma SaveChatUnique(chats: seq<Chat>, chat: Chat, now: int)
    requires UniqueIds(chats)
    ensures UniqueIds(SaveChat(chats, chat, now))
  {
    UpsertUnique(chats, chat, now);
    SortDistinct(Upsert(chats, chat, now), Recency, ChatId);
  }

  /** Every saved chat under another id was already stored. */
  lemma SavedFromStore(chats: seq<Chat>, chat: Chat, now: int, d: Chat)
    requires d in SaveChat(chats, chat, now) && d.id != chat.id
    ensures d in chats
  {
    var u := Upsert(chats, chat, now);
    assert d in multiset(SaveChat(chats, chat, now));
    assert d in multiset(u);
    var k :| 0 <= k < |u| && u[k] == d;
    var i := IndexOfChat(chats, chat.id);
    if i >= 0 && k != i {
      assert d == chats[k];
    } else if i < 0 && k < |chats| {
      assert d == chats[k];
    }
  }

  /** Every stored chat under another id is saved again unchanged. */
  lemma StoreKeptBySave(chats: seq<Chat>, chat: Chat, now: int, c: Chat)
    requires c in chats && c.id != chat.id
    ensures c in SaveChat(chats, chat, now)
  {
    var u := Upsert(chats, chat, now);
    var k :| 0 <= k < |chats| && chats[k] == c;
    assert u[k] == c;
    assert c in multiset(u);
    assert c in multiset(SaveChat(chats, chat, now));
  }

  /** Saving finds the saved chat under its id. */
  lemma SaveChatFindsSaved(chats: seq<Chat>, chat: Chat, now: int)
    requires UniqueIds(chats)
    ensures GetChat(SaveChat(chats, chat, now), chat.id) ==
      Some(if GetChat(chats, chat.id).Some? then chat.(updatedAt := now) else chat)
  {
    var u := Upsert(chats, chat, now);
    var r := SaveChat(chats, chat, now);
    var i := IndexOfChat(chats, chat.id);
    SaveChatUnique(chats, chat, now);
    var saved := if i >= 0 then chat.(updatedAt := now) else chat;
    assert u[if i >= 0 then i else |chats|] == saved;
    assert saved in multiset(u);
    assert saved in multiset(r);
    forall d | d in r && d.id == chat.id ensures d == saved {
      UniqueMember(r, d, saved);
    }
    OnlyChatWithId(r, saved);
  }

  /** Saving changes nothing that is found under any other id. */
  lemma SaveChatOthers(chats: seq<Chat>, chat: Chat, now: int, other: string)
    requires UniqueIds(chats) && other != chat.id
    ensures GetChat(SaveChat(chats, chat, now), other) == GetChat(chats, other)
  {
    var r := SaveChat(chats, chat, now);
    match GetChat(chats, other)
    case None =>
      forall d | d in r ensures d.id != other {
        if d.id == other {
          SavedFromStore(chats, chat, now, d);
        }
      }
    case Some(c) =>
      StoreKeptBySave(chats, chat, now, c);
      SaveChatUnique(chats, chat, now);
      forall d | d in r && d.id == other ensures d == c {
        SavedFromStore(chats, chat, now, d);
        UniqueMember(chats, d, c);
      }
      OnlyChatWithId(r, c);
  }

  /** Saving keeps ids unique, finds the saved chat under its id, and
      changes nothing that is found under any other id. */
  lemma SaveChatLookup(chats: seq<Chat>, chat: Chat, now: int, other: string)
    requires UniqueIds(chats)
    ensures UniqueIds(SaveChat(chats, chat, now))
    ensures GetChat(SaveChat(chats, chat, now), chat.id) ==
      Some(if GetChat(chats, chat.id).Some? then chat.(updatedAt := now) else chat)
    ensures other != chat.id ==> GetChat(SaveChat(chats, chat, now), other) == GetChat(chats, other)
  {
    SaveChatUnique(chats, chat, now);
    SaveChatFindsSaved(chats, chat, now);
    if other != chat.id {
      SaveChatOthers(chats, chat, now, other);
    }
  }

  /** Equal `updatedAt` values keep their relative order when saving. */
  lemma SaveChatKeepsTies(chats: seq<Chat>, chat: Chat, now: int, k: int)
    ensures WithKey(SaveChat(chats, chat, now), Recency, k) == WithKey(Upsert(chats, chat, now), Recency, k)
  {
    SortStable(Upsert(chats, chat, now), Recency, k);
  }

  /** After `createChat` ids stay unique. */
  lemma CreateChatUnique(chats: seq<Chat>, title: string, freshId: string, now: int)
    requires UniqueIds(chats)
    requires GetChat(chats, freshId) == None
    ensures UniqueIds(CreateChat(chats, title, freshId, now).1)
  {
    SaveChatLookup(chats, NewChat(freshId, title, now), now, freshId);
  }

  /** `updateChatTitle` changes the title and `updatedAt` of that chat only. */
  lemma UpdateChatTitleEffect(chats: seq<Chat>, id: string, title: string, now: int, other: string)
    requires UniqueIds(chats)
    requires GetChat(chats, id).Some?
    ensures UniqueIds(UpdateChatTitle(chats, id, title, now))
    ensures GetChat(UpdateChatTitle(chats, id, title, now), id) ==
      Some(GetChat(chats, id).value.(title := title, updatedAt := now))
    ensures other != id ==> GetChat(UpdateChatTitle(chats, id, title, now), other) == GetChat(chats, other)
  {
    var c := GetChat(chats, id).value;
    SaveChatLookup(chats, c.(title := title), now, other);
  }

  /** `addMessage` appends exactly the message to that chat, points the leaf
      at it, and changes no other chat. */
  lemma AddMessageEffect(chats: seq<Chat>, chatId: string, m: Message, now: int, other: string)
    requires UniqueIds(chats)
    requires GetChat(chats, chatId).Some?
    ensures UniqueIds(AddMessage(chats, chatId, m, now))
    ensures GetChat(AddMessage(chats, chatId, m, now), chatId) ==
      Some(GetChat(chats, chatId).value.(messages := GetChat(chats, chatId).value.messages + [m],
                                          currentLeaf := Some(m.id), updatedAt := now))
    ensures other != chatId ==> GetChat(AddMessage(chats, chatId, m, now), other) == GetChat(chats, other)
  {
    var c := GetChat(chats, chatId).value;
    SaveChatLookup(chats, c.(messages := c.messages + [m], currentLeaf := Some(m.id)), now, other);
  }

  lemma DeleteChatStep(c: Chat, rest: seq<Chat>, id: string, other: string)
    requires other != id
    requires GetChat(DeleteChat(rest, id), other) == GetChat(rest, other)
    ensures GetChat(DeleteChat([c] + rest, id), other) == GetChat([c] + rest, other)
  {
    var s := [c] + rest;
    assert s[1..] == rest && s[0] == c;
    var d := DeleteChat(rest, id);
    GetChatCons(c, rest, other);
    if c.id == id {
      assert DeleteChat(s, id) == [] + d == d;
    } else {
      assert DeleteChat(s, id) == [c] + d;
      GetChatCons(c, d, other);
    }
  }

  /** Deleting a chat leaves every other lookup as it was. */
  lemma {:induction false} DeleteChatOthers(chats: seq<Chat>, id: string, other: string)
    requires other != id
    ensures GetChat(DeleteChat(chats, id), other) == GetChat(chats, other)
  {
    if chats != [] {
      DeleteChatOthers(chats[1..], id, other);
      DeleteChatStep(chats[0], chats[1..], id, other);
      assert chats == [chats[0]] + chats[1..];
    }
  }
}
