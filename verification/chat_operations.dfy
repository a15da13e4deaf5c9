/** Chat-list operations over the server-side chat record: open another
    chat, delete a chat, rename a chat. The backend call each makes is a
    parameter: `None` when it succeeds, `Some(e)` for the error it throws. */
module ChatOperations {
  import opened Common
  import opened Text

  /** The summary the server keeps for one chat. */
  datatype ChatData = ChatData(title: string, model: Option<string>, createdAt: Option<string>, updatedAt: Option<string>)

  datatype Entry = Entry(id: string, data: ChatData)

  /** `allChatsData.chats`, in `Object.keys` order, and the open chat id.
      An object holds each key once; lookups take the first entry. */
  datatype Session = Session(chats: seq<Entry>, current: string)

  /** `chats[id]` */
  function Lookup(es: seq<Entry>, id: string): (r: Option<ChatData>)
    ensures r.None? <==> forall e :: e in es ==> e.id != id
    ensures r.Some? ==> Entry(id, r.value) in es
  {
    if es == [] then None
    else if es[0].id == id then Some(es[0].data)
    else Lookup(es[1..], id)
  }

  /** `Object.keys(chats)` */
  function Keys(es: seq<Entry>): (ks: seq<string>)
    ensures |ks| == |es| && forall i :: 0 <= i < |es| ==> ks[i] == es[i].id
  {
    if es == [] then [] else [es[0].id] + Keys(es[1..])
  }

  /** The open id is empty or names a stored chat. */
  ghost predicate OpenIsStored(s: Session) {
    s.current == "" || Lookup(s.chats, s.current).Some?
  }

  /** `startNewChat` */
  function StartNewChat(s: Session): Session {
    s.(current := "")
  }

  /** `switchChat`: ignored for the open chat or an unknown id. */
  function SwitchChat(s: Session, id: string): Session {
    if id == s.current || Lookup(s.chats, id).None? then s else s.(current := id)
  }

  /** Switching never touches the record; afterwards the requested chat is
      open whenever it is stored, and repeating the switch changes nothing. */
  lemma SwitchChatEffect(s: Session, id: string)
    ensures SwitchChat(s, id).chats == s.chats
    ensures Lookup(s.chats, id).Some? ==> SwitchChat(s, id).current == id
    ensures Lookup(s.chats, id).None? ==> SwitchChat(s, id) == s
    ensures SwitchChat(SwitchChat(s, id), id) == SwitchChat(s, id)
  {
  }

  /** `const { [id]: _, ...rest } = chats`: the record without the key, in key order. */
  function Remove(es: seq<Entry>, id: string): (r: seq<Entry>)
    ensures forall e :: e in r <==> e in es && e.id != id
  {
    if es == [] then []
    else (if es[0].id == id then [] else [es[0]]) + Remove(es[1..], id)
  }

  /** Removing a key leaves every other lookup as it was. */
  lemma {:induction false} RemoveLookup(es: seq<Entry>, id: string, other: string)
    ensures Lookup(Remove(es, id), other) == if other == id then None else Lookup(es, other)
  {
    if es != [] {
      var rest := Remove(es[1..], id);
      RemoveLookup(es[1..], id, other);
      if es[0].id == id {
        assert Remove(es, id) == rest;
      } else {
        assert Remove(es, id) == [es[0]] + rest;
        assert ([es[0]] + rest)[1..] == rest;
      }
    }
  }

  /** `deleteChat`: on success the record loses the chat and, if it was
      open, the first remaining chat opens, or a new chat is started. */
  function DeleteChatOp(s: Session, id: string, apiError: Option<string>): (r: Result<Session, string>)
    ensures r.Failure? <==> apiError.Some?
    ensures r.Failure? ==> r.error == apiError.value
  {
    match apiError
    case Some(e) => Failure(e)
    case None =>
      var rest := Remove(s.chats, id);
      var current := if id == s.current then (if rest != [] then rest[0].id else "") else s.current;
      Success(Session(rest, current))
  }

  /** A successful delete removes exactly that key: every other entry and
      the key order of the rest are kept, the open id stays when another chat
      was deleted, and deleting the open chat opens the first remaining key. */
  lemma DeleteChatEffect(s: Session, id: string, other: string)
    requires DeleteChatOp(s, id, None).Success?
    ensures var r := DeleteChatOp(s, id, None).value;
      Lookup(r.chats, id).None? &&
      (other != id ==> Lookup(r.chats, other) == Lookup(s.chats, other)) &&
      (id != s.current ==> r.current == s.current) &&
      (id == s.current ==> r.current == (if Keys(r.chats) != [] then Keys(r.chats)[0] else ""))
    ensures var r := DeleteChatOp(s, id, None).value;
      id == s.current ==> forall i ::
        0 <= i < |s.chats| && s.chats[i].id != id && (forall j :: 0 <= j < i ==> s.chats[j].id == id)
        ==> r.current == s.chats[i].id
    ensures var r := DeleteChatOp(s, id, None).value;
      id == s.current && (forall e :: e in s.chats ==> e.id == id) ==> r.current == ""
  {
    RemoveLookup(s.chats, id, other);
    if id == s.current {
      DeleteOpensFirstOther(s, id);
    }
  }

  lemma DeleteOpensFirstOther(s: Session, id: string)
    requires id == s.current
    ensures forall i ::
      0 <= i < |s.chats| && s.chats[i].id != id && (forall j :: 0 <= j < i ==> s.chats[j].id == id)
      ==> DeleteChatOp(s, id, None).value.current == s.chats[i].id
    ensures (forall e :: e in s.chats ==> e.id == id) ==> DeleteChatOp(s, id, None).value.current == ""
  {
    forall i | 0 <= i < |s.chats| && s.chats[i].id != id && (forall j :: 0 <= j < i ==> s.chats[j].id == id)
      ensures Remove(s.chats, id) != [] && Remove(s.chats, id)[0] == s.chats[i]
    {
      RemoveFirst(s.chats, id, i);
    }
  }

  /** The first entry left after removing a key is the first entry of
      another key, in the original key order. */
  lemma {:induction false} RemoveFirst(es: seq<Entry>, id: string, i: int)
    requires 0 <= i < |es| && es[i].id != id
    requires forall j :: 0 <= j < i ==> es[j].id == id
    ensures Remove(es, id) != [] && Remove(es, id)[0] == es[i]
  {
    if i > 0 {
      assert es[0].id == id;
      forall j | 0 <= j < i - 1 ensures es[1..][j].id == id {
        assert es[1..][j] == es[j + 1];
      }
      RemoveFirst(es[1..], id, i - 1);
    }
  }

  /** Removing from a concatenation removes from each part, so the entries
      that remain keep their key order. */
  lemma {:induction false} RemoveAppend(a: seq<Entry>, b: seq<Entry>, id: string)
    ensures Remove(a + b, id) == Remove(a, id) + Remove(b, id)
  {
    if a != [] {
      assert a == [a[0]] + a[1..];
      assert a + b == [a[0]] + (a[1..] + b);
      RemoveCons(a[0], a[1..], id);
      RemoveCons(a[0], a[1..] + b, id);
      RemoveAppend(a[1..], b, id);
      var h := if a[0].id == id then [] else [a[0]];
      SeqAssoc(h, Remove(a[1..], id), Remove(b, id));
    } else {
      assert a + b == b;
    }
  }

  lemma RemoveCons(h: Entry, t: seq<Entry>, id: string)
    ensures Remove([h] + t, id) == (if h.id == id then [] else [h]) + Remove(t, id)
  {
    assert ([h] + t)[0] == h;
    assert ([h] + t)[1..] == t;
  }

  /** `{ ...chats, [id]: { ...chats[id], title } }`: the entry keeps its place. */
  function SetTitle(es: seq<Entry>, id: string, title: string): (r: seq<Entry>)
    ensures Keys(r) == Keys(es)
  {
    if es == [] then []
    else [if es[0].id == id then Entry(id, es[0].data.(title := title)) else es[0]] + SetTitle(es[1..], id, title)
  }

  lemma {:induction false} SetTitleLookup(es: seq<Entry>, id: string, title: string, other: string)
    ensures Lookup(SetTitle(es, id, title), other) ==
      if other == id && Lookup(es, id).Some? then Some(Lookup(es, id).value.(title := title)) else Lookup(es, other)
  {
    if es != [] {
      SetTitleLookup(es[1..], id, title, other);
      assert SetTitle(es, id, title)[1..] == SetTitle(es[1..], id, title);
    }
  }

  /** `renameChat`: a blank title or an unknown id is ignored without a
      call; otherwise the trimmed title is stored once the call succeeds. */
  function RenameChat(s: Session, id: string, newTitle: string, apiError: Option<string>): (r: Result<Session, string>)
    ensures r.Failure? <==> Trim(newTitle) != "" && Lookup(s.chats, id).Some? && apiError.Some?
    ensures r.Failure? ==> r.error == apiError.value
    ensures Trim(newTitle) == "" || Lookup(s.chats, id).None? ==> r == Success(s)
  {
    var title := Trim(newTitle);
    if title == "" || Lookup(s.chats, id).None? then Success(s)
    else
      match apiError
      case Some(e) => Failure(e)
      case None => Success(s.(chats := SetTitle(s.chats, id, title)))
  }

  /** A successful rename changes only that chat's title, to the trimmed
      text, and keeps the key order and the open id. */
  lemma RenameChatEffect(s: Session, id: string, newTitle: string, other: string)
    requires Trim(newTitle) != "" && Lookup(s.chats, id).Some?
    ensures var r := RenameChat(s, id, newTitle, None).value;
      r.current == s.current && Keys(r.chats) == Keys(s.chats) &&
      Lookup(r.chats, id) == Some(Lookup(s.chats, id).value.(title := Trim(newTitle))) &&
      (other != id ==> Lookup(r.chats, other) == Lookup(s.chats, other))
  {
    SetTitleLookup(s.chats, id, Trim(newTitle), id);
    SetTitleLookup(s.chats, id, Trim(newTitle), other);
  }

  /** Every operation keeps the open id empty or pointing at a stored chat. */
  lemma OperationsKeepOpenStored(s: Session, id: string, title: string, apiError: Option<string>)
    requires OpenIsStored(s)
    ensures OpenIsStored(StartNewChat(s))
    ensures OpenIsStored(SwitchChat(s, id))
    ensures DeleteChatOp(s, id, apiError).Success? ==> OpenIsStored(DeleteChatOp(s, id, apiError).value)
    ensures RenameChat(s, id, title, apiError).Success? ==> OpenIsStored(RenameChat(s, id, title, apiError).value)
  {
    RemoveLookup(s.chats, id, s.current);
    SetTitleLookup(s.chats, id, Trim(title), s.current);
    var rest := Remove(s.chats, id);
    if rest != [] {
      assert rest[0] in rest;
      RemoveLookup(s.chats, id, rest[0].id);
    }
  }
}
