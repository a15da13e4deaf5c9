/** The chat context: the id-keyed record of stored chats, the sidebar order
    of their ids, the title of the open chat, the open chat id kept in step
    with the `chatId` URL parameter, and the reset after deleting the open chat. */
module ChatContext {
  import opened Common
  import opened Sorting
  import opened Store

  /** A `Record<string, StoredChat>`: the entries, and the order in which
      `Object.keys` lists them (the order their keys were first assigned). */
  datatype Record = Record(keys: seq<string>, entries: map<string, Chat>)

  ghost predicate ValidRecord(r: Record) {
    (forall k :: k in r.keys <==> k in r.entries) &&
    forall i, j :: 0 <= i < j < |r.keys| ==> r.keys[i] != r.keys[j]
  }

  /** `chatsMap[id] = chat`: a new key goes to the end, an existing one keeps its place. */
  function Put(r: Record, id: string, c: Chat): Record {
    Record(if id in r.entries then r.keys else r.keys + [id], r.entries[id := c])
  }

  /** `loadChats`: every stored chat assigned under its id, in storage order,
      so a later chat with a repeated id overwrites the earlier one. */
  function LoadChats(all: seq<Chat>): (r: Record)
    ensures ValidRecord(r)
    ensures forall id :: id in r.entries <==> GetChat(all, id).Some?
    ensures forall id :: id in r.entries ==> r.entries[id] in all && r.entries[id].id == id
  {
    if all == [] then Record([], map[])
    else
      var init := all[..|all| - 1];
      var last := all[|all| - 1];
      assert all == init + [last];
      var prev := LoadChats(init);
      PutValid(prev, last.id, last);
      GetChatSnoc(init, last);
      Put(prev, last.id, last)
  }

  /** Assigning one key keeps the key list and the map in step. */
  lemma PutValid(r: Record, id: string, c: Chat)
    requires ValidRecord(r)
    ensures ValidRecord(Put(r, id, c))
  {
    var keys := Put(r, id, c).keys;
    if id !in r.entries {
      forall i, j | 0 <= i < j < |keys| ensures keys[i] != keys[j] {
        if j == |r.keys| {
          assert keys[i] == r.keys[i];
        }
      }
    }
  }

  /** A chat appended to storage is found under its own id and adds no other. */
  lemma GetChatSnoc(init: seq<Chat>, last: Chat)
    ensures forall id :: GetChat(init + [last], id).Some? <==> GetChat(init, id).Some? || id == last.id
  {
    forall id ensures GetChat(init + [last], id).Some? <==> GetChat(init, id).Some? || id == last.id {
      if GetChat(init + [last], id).Some? {
        assert GetChat(init + [last], id).value in init + [last];
      }
      if GetChat(init, id).Some? {
        assert GetChat(init, id).value in init + [last];
      }
      assert last in init + [last];
    }
  }

  /** The later of two chats with the same id is the one kept. */
  lemma {:induction false} LoadChatsLastWins(all: seq<Chat>, i: int)
    requires 0 <= i < |all|
    requires forall j :: i < j < |all| ==> all[j].id != all[i].id
    ensures LoadChats(all).entries[all[i].id] == all[i]
  {
    var init := all[..|all| - 1];
    if i < |all| - 1 {
      LoadChatsLastWins(init, i);
    }
  }

  /** The ids of `chats`, in order. */
  function IdsOf(chats: seq<Chat>): (ids: seq<string>)
    ensures |ids| == |chats|
    ensures forall i :: 0 <= i < |chats| ==> ids[i] == chats[i].id
  {
    if chats == [] then [] else IdsOf(chats[..|chats| - 1]) + [chats[|chats| - 1].id]
  }

  /** Dropping the last chat keeps ids distinct, and its id is new to the rest. */
  lemma UniqueInit(all: seq<Chat>)
    requires UniqueIds(all) && all != []
    ensures UniqueIds(all[..|all| - 1])
    ensures GetChat(all[..|all| - 1], all[|all| - 1].id).None?
  {
    var init := all[..|all| - 1];
    forall i, j | 0 <= i < j < |init| ensures ChatId(init[i]) != ChatId(init[j]) {
      assert init[i] == all[i] && init[j] == all[j];
    }
    forall c | c in init ensures c.id != all[|all| - 1].id {
      var k :| 0 <= k < |init| && init[k] == c;
      assert ChatId(all[k]) != ChatId(all[|all| - 1]);
    }
  }

  /** With distinct ids the record lists every stored chat in storage order. */
  lemma {:induction false} LoadChatsKeys(all: seq<Chat>)
    requires UniqueIds(all)
    ensures LoadChats(all).keys == IdsOf(all)
  {
    if all != [] {
      UniqueInit(all);
      LoadChatsKeys(all[..|all| - 1]);
    }
  }

  /** With distinct ids every stored chat is the entry under its own id. */
  lemma LoadChatsEntries(all: seq<Chat>)
    requires UniqueIds(all)
    ensures forall i :: 0 <= i < |all| ==> LoadChats(all).entries[all[i].id] == all[i]
  {
    forall i | 0 <= i < |all| ensures LoadChats(all).entries[all[i].id] == all[i] {
      assert forall j :: i < j < |all| ==> ChatId(all[i]) != ChatId(all[j]);
      LoadChatsLastWins(all, i);
    }
  }

  /** The record agrees with `getChat` on the stored list. */
  lemma LoadChatsFindsChat(all: seq<Chat>, id: string)
    requires UniqueIds(all)
    ensures id in LoadChats(all).entries <==> GetChat(all, id).Some?
    ensures id in LoadChats(all).entries ==> LoadChats(all).entries[id] == GetChat(all, id).value
  {
    if GetChat(all, id).Some? {
      var c := GetChat(all, id).value;
      var k :| 0 <= k < |all| && all[k] == c;
      LoadChatsEntries(all);
    }
  }

  /** The sidebar sort key: a later `updatedAt` sorts first. */
  function RecencyIn(r: Record): string -> int {
    k => if k in r.entries then Recency(r.entries[k]) else 0
  }

  /** `chatIds`: the record's keys, newest `updatedAt` first, ties in key order. */
  function ChatIds(r: Record): (ids: seq<string>)
    ensures multiset(ids) == multiset(r.keys)
    ensures forall i, j :: 0 <= i < j < |ids| && ids[i] in r.entries && ids[j] in r.entries ==>
      r.entries[ids[i]].updatedAt >= r.entries[ids[j]].updatedAt
    ensures forall t :: WithKey(ids, RecencyIn(r), t) == WithKey(r.keys, RecencyIn(r), t)
  {
    var ids := SortBy(r.keys, RecencyIn(r));
    forall t ensures WithKey(ids, RecencyIn(r), t) == WithKey(r.keys, RecencyIn(r), t) {
      SortStable(r.keys, RecencyIn(r), t);
    }
    ids
  }

  /** Storage is kept newest first by `saveChat`, so the sidebar lists the
      chats exactly in storage order. */
  lemma ChatIdsFollowStorage(all: seq<Chat>)
    requires UniqueIds(all) && NewestFirst(all)
    ensures ChatIds(LoadChats(all)) == IdsOf(all)
  {
    var r := LoadChats(all);
    LoadChatsKeys(all);
    LoadChatsEntries(all);
    assert SortedBy(r.keys, RecencyIn(r)) by {
      forall i, j | 0 <= i < j < |r.keys| ensures RecencyIn(r)(r.keys[i]) <= RecencyIn(r)(r.keys[j]) {
        assert r.entries[all[i].id] == all[i] && r.entries[all[j].id] == all[j];
      }
    }
    SortSorted(r.keys, RecencyIn(r));
  }

  /** `chatTitle` */
  function ChatTitle(current: string, r: Record): string {
    if current == "" || current !in r.entries then DefaultTitle else r.entries[current].title
  }

  /** The header shows the stored title of the open chat, and "New Chat"
      when no chat is open or the open id is not stored. */
  lemma ChatTitleOfStore(all: seq<Chat>, current: string)
    requires UniqueIds(all)
    ensures current == "" || GetChat(all, current).None? ==> ChatTitle(current, LoadChats(all)) == DefaultTitle
    ensures current != "" && GetChat(all, current).Some? ==>
      ChatTitle(current, LoadChats(all)) == GetChat(all, current).value.title
  {
    LoadChatsFindsChat(all, current);
  }

  /** The URL effect: the open chat id after the `chatId` parameter is read. */
  function UrlSync(urlId: Option<string>, current: string): (r: string)
    ensures r == if Truthy(urlId) then urlId.value else ""
  {
    if Truthy(urlId) && urlId.value != current then urlId.value
    else if !Truthy(urlId) && current != "" then ""
    else current
  }

  /** Once synced, re-running the effect changes nothing. */
  lemma UrlSyncSettles(urlId: Option<string>, current: string)
    ensures UrlSync(urlId, UrlSync(urlId, current)) == UrlSync(urlId, current)
  {
  }

  /** The context's `deleteChat`: the stored list without the chat, the
      reloaded record, and the open id, cleared when the open chat was deleted. */
  function DeleteInContext(all: seq<Chat>, current: string, id: string): (seq<Chat>, Record, string) {
    var rest := DeleteChat(all, id);
    (rest, LoadChats(rest), if current == id then "" else current)
  }

  /** After a delete the id is gone from the record, every other id is
      listed as before, and deleting the open chat shows "New Chat". */
  lemma DeleteInContextEffect(all: seq<Chat>, current: string, id: string, other: string)
    requires other != id
    ensures id !in DeleteInContext(all, current, id).1.entries
    ensures other in DeleteInContext(all, current, id).1.entries <==> other in LoadChats(all).entries
    ensures current == id ==> ChatTitle(DeleteInContext(all, current, id).2, DeleteInContext(all, current, id).1) == DefaultTitle
  {
    DeleteChatOthers(all, id, other);
  }
}
