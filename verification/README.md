# Branching chat store — a Dafny model

This project models the core of a chat client that keeps every conversation
as a **tree of messages**. Each message names its parent
(`parentMessageId`). A chat has one `currentLeafMessageId`, and the path from
the root to that leaf is the branch on screen. Retrying an answer or editing
a question adds a *sibling* instead of overwriting. The arrows under a
message step between siblings, and stepping follows the oldest child down to
a leaf.

The model covers:

* the chat store (`local-storage.ts`): the list of chats, saving (newest
  first), creating, retitling, appending a message, rebuilding the active
  branch, finding siblings, switching sibling, descending to the deepest leaf,
  and generating a title;
* the chat page controller (`Chat.tsx`): submit, retry, edit, continue and
  navigate, each as a function from the branch on screen and the store to the
  optimistic branch, the prompt history, the store afterwards and the branch
  shown afterwards; the streaming accumulator and the window title;
* the stream framer (`openai.ts`): server-sent-events `data:` lines cut
  from text read in arbitrary pieces, and the missing-key check before any
  request;
* the helpers around them: message action buttons, message-list flags and
  scroll hysteresis, the chat context (record of chats, sidebar order, title,
  URL sync, delete), the chat-map operations backed by an API, the
  most-recently-used model list, the tool toggle and its load fallbacks,
  model selection, and the theme value codec.

Modelling conventions:

* Timestamps are integers (`new Date(..).getTime()`).
* Ids are opaque strings. Fresh ids (`crypto.randomUUID`, `generateUUID`)
  are parameters with a freshness precondition.
* The store is an immutable `seq<Chat>`.
* The sorts are a stable insertion sort by an integer key (module `Sorting`),
  as `Array.prototype.sort` is stable.
* JavaScript truthiness of an optional string (`""` and `null` are false) is
  `Common.Truthy`.
* `new Map(...)` lookups take the last message with an id
  (`Branches.Lookup`). `find` and `findIndex` take the first
  (`Branches.FindMessage`, `Store.GetChat`).
* The walk up parent links and the descent down child links run on fuel
  `|messages|`. Under `WellFormed` (unique truthy ids, every parent stored
  before its child) that fuel is proved sufficient.
* Backend calls, `fetch`, `JSON.parse` of a frame and the clock are
  parameters:
  * a call that may throw is an `Option<string>` error or a `Result`;
  * `fetch` is a function from the request to `Result<HttpResponse, string>`,
    whose failure is a rejection's message; `response.text()` is likewise a
    `Result` inside the response;
  * frame decoding is a function `string -> Parsed`;
  * `now` is an integer.

Files: `common.dfy`, `sorting.dfy`, `text.dfy` (trim, whitespace split,
join, newline split), `store.dfy`, `branches.dfy`, `stream.dfy`,
`controller.dfy`, `message_actions.dfy`, `message_list.dfy`,
`chat_context.dfy`, `chat_operations.dfy`, `recent_models.dfy`, `tools.dfy`,
`models.dfy`, `theme.dfy`.

## Model

| member | source | states |
|---|---|---|
| Store.GetChat | app/lib/services/local-storage.ts:49-52 | The first chat with the id, and None exactly when no chat has it. |
| Store.SaveChat | app/lib/services/local-storage.ts:54-75 | The list is left sorted newest `updatedAt` first. A stored chat is replaced by the new one with a refreshed `updatedAt` (same length, multiset swap); a new chat is added unchanged. |
| Store.SaveChatLookup | app/lib/services/local-storage.ts:58-71 | Saving keeps ids unique, finds the saved chat afterwards (with `updatedAt := now` if it replaced one) and leaves every other id's lookup unchanged. |
| Store.SaveChatKeepsTies | app/lib/services/local-storage.ts:67-69 | Chats with equal `updatedAt` keep their relative order (stable sort). |
| Store.DeleteChat | app/lib/services/local-storage.ts:77-87 | Exactly the chats with other ids remain, and the id is no longer found. |
| Store.DeleteChatAppend | app/lib/services/local-storage.ts:82 | The filter distributes over concatenation, so the chats that remain keep their storage order. |
| Store.DeleteChatOthers | app/lib/services/local-storage.ts:82 | Deleting one id leaves every other id's lookup unchanged. |
| Store.CreateChat | app/lib/services/local-storage.ts:89-102 | The new chat has the fresh id, no messages, no leaf, both timestamps `now`, the given title or "New Chat" for an empty one; the list gains exactly that chat and finds it by id. |
| Store.CreateChatUnique | app/lib/services/local-storage.ts:89-102 | Creating a chat with a fresh id keeps ids unique. |
| Store.UpdateChatTitle | app/lib/services/local-storage.ts:104-110 | An unknown id leaves the list unchanged; otherwise the length is kept. |
| Store.UpdateChatTitleEffect | app/lib/services/local-storage.ts:104-110 | Only that chat's title and `updatedAt` change; every other chat is found as before. |
| Store.AddMessage | app/lib/services/local-storage.ts:112-119 | An unknown chat id leaves the list unchanged; otherwise the length is kept. |
| Store.AddMessageEffect | app/lib/services/local-storage.ts:112-119 | The chat gains exactly the message at the end, its leaf points at it, and no other chat changes. |
| Store.TitleStem | app/lib/services/local-storage.ts:199-200 | The stem is the first six words of the trimmed text joined by single spaces, and is no longer than the text. |
| Store.GenerateTitle | app/lib/services/local-storage.ts:198-202 | The title is the stem or the stem plus "...", with the "..." exactly when the stem is shorter than the text. |
| Store.GenerateTitleLong | app/lib/services/local-storage.ts:198-202 | Text of more than six words gets the six-word stem plus "...". |
| Store.GenerateTitleShort | app/lib/services/local-storage.ts:198-202 | Up to six words joined by single spaces are their own title. |
| Branches.Walk | app/lib/services/local-storage.ts:125-134 | The walk returns stored messages, each one the parent of the next, ending at the leaf's message; it is empty exactly when the leaf id is falsy or unknown. |
| Branches.GetActiveBranch | app/lib/services/local-storage.ts:121-137 | Empty for a missing chat or a falsy leaf; otherwise only messages of that chat. |
| Branches.ActiveBranchIsPath | app/lib/services/local-storage.ts:121-137 | For a stored chat whose parents precede their children, the active branch is the root-first chain of parent links ending at the leaf pointer, and empty exactly when the pointer is falsy or names no message. |
| Branches.WalkComplete | app/lib/services/local-storage.ts:129-134 | With parents stored before children, fuel `|messages|` suffices: the walk is the full chain from a root (or dangling parent) to the leaf. |
| Branches.ChainUnique | app/lib/services/local-storage.ts:129-134 | There is only one chain ending at a given leaf, so the branch is determined by the leaf. |
| Branches.AppendExtends | app/lib/services/local-storage.ts:112-119 | Appending a fresh message whose parent is `p` makes the branch to it the branch to `p` plus the message. |
| Branches.AppendKeepsWellFormed | app/lib/services/local-storage.ts:115 | Appending a fresh message keeps ids unique and truthy and parents stored before children. |
| Branches.AddMessageExtends | app/lib/services/local-storage.ts:112-119 | After `addMessage` the chat stays well formed and its active branch is the branch to the message's parent plus the message. |
| Branches.LookupIsFind | app/lib/services/local-storage.ts:125 | With unique ids the Map lookup (last wins) and `find` (first wins) agree. |
| Branches.SiblingsIn | app/lib/services/local-storage.ts:143-152 | An unknown message gives `([], 0)`. Otherwise the siblings are exactly the messages with the same parent and role, sorted by `createdAt`, and the current index is the first with the message's id. |
| Branches.GetSiblings | app/lib/services/local-storage.ts:139-153 | A missing chat gives `([], 0)`; otherwise the siblings within that chat. |
| Branches.SlotOf | app/lib/services/local-storage.ts:146-148 | Sorted by `createdAt` and a permutation of the messages with the given parent and role. |
| Branches.SiblingsKeepTies | app/lib/services/local-storage.ts:148 | Siblings created at the same time keep their storage order. |
| Branches.SiblingTarget | app/lib/services/local-storage.ts:161-166 | There is a target exactly when the stepped index is within the siblings, and the target is one of them. |
| Branches.FindDeepestLeaf | app/lib/services/local-storage.ts:175-188 | The leaf is the start id or the id of a stored message. |
| Branches.DescentPicksOldest | app/lib/services/local-storage.ts:180-184 | Each step takes the first child of least `createdAt`. Children are chosen by parent only, not by role. |
| Branches.DeepestLeafIsLeaf | app/lib/services/local-storage.ts:175-188 | With parents stored before children the descent ends at a message that has no children. |
| Branches.ChildListed | app/lib/services/local-storage.ts:177-184 | Every stored message whose parent is the id is among the children the descent considers. |
| Branches.BranchThroughDescent | app/lib/services/local-storage.ts:121-137 | The branch to the deepest leaf below a stored message is the branch to the message followed by the descent below it. |
| Branches.DescentChain | app/lib/services/local-storage.ts:180-185 | The descent extends a parent chain: each visited message is a child of the previous one. |
| Branches.SwitchIn | app/lib/services/local-storage.ts:159-170 | The switch happens exactly when the step lands on a sibling, and then only the leaf pointer changes, to the deepest leaf below that sibling. |
| Branches.SwitchToSibling | app/lib/services/local-storage.ts:155-173 | A missing chat or an out-of-range step leaves the store unchanged. |
| Branches.SwitchShowsSibling | app/lib/services/local-storage.ts:155-188 | After a switch the active branch is the branch to the sibling's parent, the sibling, then the oldest-first descent below it. |
| Branches.SwitchToSiblingBranch | app/lib/services/local-storage.ts:155-173 | The same, read back from the saved store. |
| Branches.SwitchRoundTrip | app/lib/services/local-storage.ts:159-166 | Stepping to the next sibling and then back lands on the message one started from. |
| Stream.Feed | app/lib/services/openai.ts:86-88 | After a read the complete lines and the new buffer, joined by newlines, are exactly the old buffer plus the new text; no line and not the buffer contains a newline. |
| Stream.LineChunk | app/lib/services/openai.ts:90-104 | A chunk is emitted only for a trimmed line that starts with `data: ` and is not `data: [DONE]`, whose payload decodes to a non-empty delta; blank lines emit nothing. |
| Stream.SkippedLines | app/lib/services/openai.ts:91-94 | `data: [DONE]`, blank lines and lines without the `data: ` prefix emit nothing. |
| Stream.FrameRoundTrip | app/lib/services/openai.ts:94-100 | Framing a payload as `data: <payload>` and reading the line back gives the decoded content. |
| Stream.ParseStream | app/lib/services/openai.ts:66-114 | A missing body gives only `onError`. Otherwise the chunks are those of the complete lines of all text read, whatever the split into reads; a trailing partial line is never delivered; exactly one of `onComplete`/`onError` ends the events. |
| Stream.CompleteLinesOf | app/lib/services/openai.ts:82-106 | The lines the loop has processed are exactly the complete lines of the text read so far. |
| Stream.ChunksAppend | app/lib/services/openai.ts:90-105 | Lines are framed independently: the chunks of two runs of lines are the chunks of each. |
| Stream.ConfigFrom | app/lib/services/openai.ts:27-31 | Base URL and model are never empty (defaults apply); the key is empty exactly when unset. |
| Stream.StreamChat | app/lib/services/openai.ts:40-64 | An empty key fails with the missing-key error. Otherwise it succeeds exactly when `fetch` resolves to an ok response, returning its body. A rejected `fetch` fails with its message. A non-ok response fails with its status and text, or with the message `response.text()` rejects with. |
| Stream.MissingKeyBeforeRequest | app/lib/services/openai.ts:41-43 | With an empty key the outcome does not depend on the network at all. |
| Controller.WindowTitle | app/components/Chat.tsx:68-78 | "New Chat" with no user message. Otherwise the first user message's text, or its first 40 characters plus "..." when it is longer. |
| Controller.WindowTitleAppend | app/components/Chat.tsx:69 | Only the first user message matters: messages after it never change the title, and a branch without one takes the title of what follows. |
| Controller.Cumulative | app/components/Chat.tsx:108-116 | The i-th update is the concatenation of the first i+1 chunks. |
| Controller.CumulativeGrows | app/components/Chat.tsx:113-115 | Each update extends the previous one by exactly the new chunk. |
| Controller.Accumulate | app/components/Chat.tsx:110-119 | The updates are the running concatenations; completion resolves with the whole text, an error rejects with it. |
| Controller.StreamResponse | app/components/Chat.tsx:96-121 | A failed request gives no updates and that error. Otherwise the updates are the running text of the delivered chunks, and it resolves (with the last update) exactly when the body exists and reading does not fail. |
| Controller.Submit | app/components/Chat.tsx:123-208 | A no-op for blank input or while loading. Otherwise the history is the branch plus the trimmed user message (parent: the last id, or none), and the optimistic branch adds the empty placeholder. On success a new chat is used when none was open and the store's branch is shown; on error the store is untouched and the placeholder is replaced by an answer reading "Sorry, there was an error processing your request: " followed by the error. |
| Controller.SubmitResync | app/components/Chat.tsx:182-186 | In an open chat, after a successful send the shown branch is the old branch plus the user message and the stored reply. |
| Controller.SubmitNewChat | app/components/Chat.tsx:175-186 | Sending from no chat creates one titled from the message, holding exactly the user message and the reply. |
| Controller.SubmitErrorShown | app/components/Chat.tsx:191-203 | On error the shown branch is the old branch, the user message and the error answer: the fixed apology followed by the error's text, with the message before the user message as parent. |
| Controller.Retry | app/components/Chat.tsx:241-294 | A no-op without a chat or for an unknown id. The history is the prefix before the retried message, and the optimistic branch adds a new empty answer with the retried message's parent. Success shows the store's branch; an error keeps the store. |
| Controller.RetryResync | app/components/Chat.tsx:284-287 | After a successful retry the shown branch is the prefix plus the new answer holding the streamed text. |
| Controller.EditSubmit | app/components/Chat.tsx:309-387 | Ignored without an editing id, text or chat, or for an unknown id; only closes the editor when the trimmed text is unchanged. Otherwise the history is the prefix plus a new user message with the original's parent, followed optimistically by a placeholder. |
| Controller.EditResync | app/components/Chat.tsx:376-381 | After a successful edit the shown branch is the prefix, the new user message and the reply. |
| Controller.Continue | app/components/Chat.tsx:210-239 | A no-op without a chat or for an unknown id. The history is the inclusive prefix, nothing is stored, and on success the stored branch is reloaded, dropping the streamed text. |
| Controller.ContinueResync | app/components/Chat.tsx:221-233 | Continuing the stored branch and succeeding shows that branch unchanged: the continued message keeps its stored text and the streamed continuation is dropped. |
| Controller.ContinueFailureChangesOne | app/components/Chat.tsx:221-238 | When the continuation streams and then fails, the branch on screen equals the branch before except at the continued message, whose content becomes the last streamed text; with unique ids no other message changes. |
| Controller.WithContentAt | app/components/Chat.tsx:224-226 | With unique ids, mapping the streamed content onto the message with the given id replaces that one entry and keeps every other entry and the order. |
| Controller.Navigate | app/components/Chat.tsx:397-408 | A no-op without a chat or for an out-of-range index; otherwise the shown branch is the store's active branch after the switch. |
| Controller.NavigateShows | app/components/Chat.tsx:397-408 | Navigating changes the store only when the sibling step lands, and then shows the sibling's branch. |
| MessageActions.ActionBar | app/components/MessageActions.tsx:39-146 | Copy is always shown and enabled. Continue and retry are shown exactly for answers given their handler, edit exactly for questions given its handler, and they are disabled exactly while loading. The arrows and the `k/n` counter are shown exactly when there are several siblings and a navigate handler, and an arrow is disabled exactly when there is no sibling that way or while loading. |
| MessageActions.NavDisabledIffNoOp | app/components/MessageActions.tsx:129 | An arrow is disabled exactly when loading or when the matching `switchToSibling` would change nothing. |
| MessageActions.ArrowDisabledIffNoOp | app/components/MessageActions.tsx:120-146 | On the rendered bar, a shown arrow is disabled exactly when loading or when the switch it requests would change nothing. |
| MessageActions.CounterShowsPosition | app/components/MessageActions.tsx:137-139 | The counter k/n has 1 <= k <= n, n is the number of siblings and the k-th sibling is the message. |
| MessageActions.EditExcludesRegenerate | app/components/MessageActions.tsx:69-103 | A message with an edit button has neither continue nor retry. |
| MessageList.Rendered | app/components/ChatMessageList.tsx:93 | Exactly the user and assistant messages are kept. |
| MessageList.RenderedAppend | app/components/ChatMessageList.tsx:93 | Filtering keeps order: the filter of a concatenation is the concatenation of the filters. |
| MessageList.LastAssistantIsLast | app/components/ChatMessageList.tsx:95-97 | The index of the last assistant message, or -1 exactly when there is none. |
| MessageList.RowFlags | app/components/ChatMessageList.tsx:102-103 | At most one row streams and at most one is the last answer, never the same row; the last-answer row is the last assistant row when not loading. |
| MessageList.EditorRowUnique | app/components/ChatMessageList.tsx:105 | With distinct ids at most one row, a user row with the editing id, is an editor. |
| MessageList.AfterMessagesChange | app/components/ChatMessageList.tsx:78-91 | The list scrolls exactly when the user just sent a message or the view is at the bottom, and the length is remembered. |
| MessageList.SubmitNeverJustSent | app/components/ChatMessageList.tsx:79-81 | The branch shown right after a submit ends with the assistant placeholder, so the "user just sent" case never fires for it. |
| MessageList.BandKeepsFlag | app/components/ChatMessageList.tsx:62-66 | Scroll events at distances 50..70 leave the at-bottom flag as it was. |
| MessageList.LastExitDecides | app/components/ChatMessageList.tsx:62-66 | The last event outside 50..70 decides the flag: below 50 sets it, above 70 clears it. |
| ChatContext.LoadChats | app/contexts/chat-context.tsx:27-34 | The record has exactly the stored ids as keys, each mapping to a stored chat with that id. |
| ChatContext.LoadChatsLastWins | app/contexts/chat-context.tsx:30-32 | With duplicate ids the later chat overwrites the earlier one. |
| ChatContext.LoadChatsKeys | app/contexts/chat-context.tsx:30-32 | With unique ids the keys are the stored ids in storage order. |
| ChatContext.ChatIds | app/contexts/chat-context.tsx:51-60 | A permutation of the keys, newest `updatedAt` first, with ties kept in key order. |
| ChatContext.ChatIdsFollowStorage | app/contexts/chat-context.tsx:51-60 | For a store kept newest first, the sidebar order is the storage order. |
| ChatContext.ChatTitleOfStore | app/contexts/chat-context.tsx:62-67 | "New Chat" when no chat is open or the open id is not stored; otherwise the stored title. |
| ChatContext.UrlSync | app/contexts/chat-context.tsx:41-49 | After the effect the open id is the URL's id, or empty when the URL has none. |
| ChatContext.UrlSyncSettles | app/contexts/chat-context.tsx:41-49 | Running the effect again changes nothing. |
| ChatContext.DeleteInContextEffect | app/contexts/chat-context.tsx:79-85 | The id leaves the record, every other id stays listed as before, and deleting the open chat shows "New Chat". |
| ChatOperations.SwitchChatEffect | app/lib/hooks/useChatOperations.ts:32-37 | The record is untouched. A stored chat becomes open; an unknown id changes nothing; repeating the switch changes nothing. |
| ChatOperations.DeleteChatOp | app/lib/hooks/useChatOperations.ts:39-59 | It fails exactly when the API call throws, with that error. |
| ChatOperations.DeleteChatEffect | app/lib/hooks/useChatOperations.ts:43-53 | A successful delete removes exactly that key and keeps every other entry. When the chat was open, the first key in the original key order other than the deleted one opens, or none when no other key exists. |
| ChatOperations.RemoveLookup | app/lib/hooks/useChatOperations.ts:43 | Removing a key leaves every other key's entry as it was. |
| ChatOperations.RemoveFirst | app/lib/hooks/useChatOperations.ts:43-50 | The first key left after the removal is the first key of the original order other than the removed one. |
| ChatOperations.RemoveAppend | app/lib/hooks/useChatOperations.ts:43 | Removal distributes over concatenation, so the remaining keys keep their order. |
| ChatOperations.RenameChat | app/lib/hooks/useChatOperations.ts:61-84 | A blank trimmed title or an unknown id is a no-op without a call. Otherwise it fails exactly when the call throws, with that error. |
| ChatOperations.RenameChatEffect | app/lib/hooks/useChatOperations.ts:68-79 | A successful rename sets only that chat's title, to the trimmed text, keeping key order and the open id. |
| ChatOperations.OperationsKeepOpenStored | app/lib/hooks/useChatOperations.ts:21-84 | Every operation keeps the open id empty or naming a stored chat. |
| RecentModels.AddRecent | app/lib/utils.ts:11-27 | An empty key writes nothing. Otherwise the list is the key followed by the first four (or fewer) stored keys other than it, in stored order, so it holds the key once and at most five entries. |
| RecentModels.WithoutAppend | app/lib/utils.ts:20 | The filter distributes over concatenation, so the keys kept stay in stored order. |
| RecentModels.OthersKeepOrder | app/lib/utils.ts:18-21 | The keys after the head are earlier keys in their earlier relative order. |
| RecentModels.AddRecentIdempotent | app/lib/utils.ts:18-21 | Using the head model again leaves the list unchanged. |
| RecentModels.NothingDroppedBelowCap | app/lib/utils.ts:18-21 | With fewer than five stored keys no key is lost. |
| RecentModels.AddRecentNoDuplicates | app/lib/utils.ts:18-21 | A list without repeats stays without repeats. |
| Tools.Toggle | app/lib/hooks/useTools.ts:67-69 | A present id is removed, every occurrence; an absent id is appended at the end; other ids are kept. |
| Tools.ToggleTwice | app/lib/hooks/useTools.ts:67-69 | Toggling twice gives the same set, and the very same list when the id was absent. |
| Tools.ToggleToolSaves | app/lib/hooks/useTools.ts:66-87 | The toggled list stays exactly when every attempted save succeeds, else the old list returns. The chat save is attempted only for an open chat; the defaults save is attempted unless the chat save threw. |
| Tools.LoadActiveTools | app/lib/hooks/useTools.ts:35-64 | Without a chat the defaults load. An open chat loads its own list, falling back to the defaults when that throws; `[]` when the defaults throw; a missing field reads as `[]`. |
| Tools.LoadedFromSomeSource | app/lib/hooks/useTools.ts:39-57 | The loaded list comes from a request that succeeded, or is empty; the chat request is irrelevant without a chat. |
| Models.FirstDefault | app/lib/hooks/useModels.ts:31 | The first model with `isDefault === true`, or -1 when none is. |
| Models.LoadModels | app/lib/hooks/useModels.ts:10-51 | A failure gives no models and `''`. The selection is `''` exactly when the list is empty, else a listed model's key; anything written back equals the selection. |
| Models.SavedWinsIffOffered | app/lib/hooks/useModels.ts:23-37 | The saved key is selected exactly when some model has it; otherwise the first default (else the first) model is selected and written. |
| Models.SelectionStable | app/lib/hooks/useModels.ts:18-37 | Reloading the same list with the key just chosen selects it again and writes nothing. |
| Theme.ToValue | app/components/ThemeToggle.tsx:87-96 | Every theme maps to one of the three item values. |
| Theme.ThemeRoundTrip | app/components/ThemeToggle.tsx:87-109 | Decoding the value of a theme gives the theme back. |
| Theme.ValueRoundTrip | app/components/ThemeToggle.tsx:87-109 | Encoding the theme of an item value gives the value back. |
| Theme.ToValueInjective | app/components/ThemeToggle.tsx:88-95 | Distinct themes get distinct values. |
| Theme.UnknownIsSystem | app/components/ThemeToggle.tsx:106-107 | Any value that is not an item decodes to System. |
| Theme.ExactlyOneChecked | app/components/ThemeToggle.tsx:131 | Exactly one item is checked for any theme. |
| Sorting.SortBy | app/lib/services/local-storage.ts:67-69 | The sort used for chats, siblings and children: sorted by the key and a permutation of the input. |
| Sorting.SortStable | app/lib/services/local-storage.ts:148 | Elements with equal keys keep their input order. |
| Sorting.SortHeadIsFirstMin | app/lib/services/local-storage.ts:182-183 | The head of the sort is the first element of least key. |
| Text.Trim | app/lib/hooks/useChatOperations.ts:62 | `String.prototype.trim`: no leading or trailing whitespace, and empty exactly when the input is all whitespace. |
| Text.TrimSlice | app/lib/hooks/useChatOperations.ts:62 | The trimmed text is the slice of the input after the leading whitespace. |
| Text.TrimSides | app/lib/hooks/useChatOperations.ts:62 | Only whitespace is cut: everything before and after the slice is whitespace. |
| Text.Words | app/lib/services/local-storage.ts:199 | `trim().split(/\s+/)`: non-empty words without whitespace. |
| Text.WordsBlank | app/lib/services/local-storage.ts:199 | There are no words exactly when the text is all whitespace. |
| Text.WordsSkipSpace | app/lib/services/local-storage.ts:199 | Leading whitespace yields no word. |
| Text.WordsCons | app/lib/services/local-storage.ts:199 | A maximal run of non-space characters at the start is the first word, followed by the words of the rest; with WordsSkipSpace and WordsBlank this fixes the words as the maximal non-space runs, in order. |
| Text.SplitJoin | app/lib/services/openai.ts:87 | Joining the pieces of `split('\n')` with newlines gives the text back. |

## Left out

- Storage I/O. `localStorage`, JSON (de)serialisation, a corrupt store read as `[]` and the `typeof window` / `isClient` guards are left out. The store is a `seq<Chat>` value. `data-migration.ts` is not part of this model.
- Network and decoding. The network behind `fetch` (it is a parameter), the HTTP headers and JSON body encoding, `TextDecoder`, the stream reader, `AbortController` and `handleStop` are left out. A body is a sequence of already-decoded text pieces plus whether a read fails. Frame `JSON.parse` is an abstract function whose result may be a parse failure.
- Concurrency. Overlapping requests and state updates that race a stream are not modelled. Each handler reads one branch, one store and one `now`.
- React plumbing: state, effects, refs, memoisation, `window.history`, `document.title`, the router and the input focus `setTimeout`. The model keeps only the values these compute.
- The `IntersectionObserver` that also sets the at-bottom flag, and `scrollIntoView`. Scroll metrics are integers.
- Dates are integer timestamps rather than ISO-8601 strings.
- ChatContext.ChatIds: the `updatedAt || createdAt || 0` fallback is not modelled, because every chat has an integer `updatedAt`.
- Object key order. `Object.keys` is modelled as insertion order. JavaScript lists integer-like keys first, which UUID keys never are.
- Text.Trim: only ASCII whitespace (space, tab, newline, vertical tab, form feed, carriage return) is trimmed, not the Unicode space characters. Lengths count `char`s, not UTF-16 code units.
- Text.Words: only ASCII whitespace counts as the `\s` of `split(/\s+/)`; the Unicode space characters JavaScript's `\s` also matches are not separators here.
- Controller.WindowTitle: the 40-character limit counts `char`s, while `length > 40` and `substring(0, 40)` count UTF-16 code units; the two differ only for text outside the Basic Multilingual Plane.
- Branches.Walk: on fuel `|messages|`. The source loops forever on a parent cycle; the model stops after `|messages|` steps, and `WalkComplete` shows that the bound is never reached for well-formed chats.
- Branches.FindDeepestLeaf: on the same fuel. The source's descent also loops forever on a cycle.
- `switchToLeafFromMessage` is private and never called, so it is not modelled.
- The context's `startNewChat`, `switchChat`, `renameChat` and `refreshChats`. Each sets the open id or reloads the record; `UrlSync`, `LoadChats` and `Store.UpdateChatTitle` cover the logic.
- `handleEdit`, `handleEditCancel` and `handleInputChange` only copy a message into the editor state or clear it. Their effect is the editing id that `MessageList.EditorRowUnique` and `Controller.EditSubmit` take as input.
- `getRecentModels`, the available-tools request, the `tools-updated` event and `updateSelectedModel` only read or write storage.
- Copy to clipboard and the "Copied!" timer.
- Rendering-only files: Markdown, KaTeX and Prism, the message caret walker, the input form, the panel, the skeleton and the not-found page. Also the theme context's `matchMedia` and DOM class plumbing.
- Controller.Continue: the streamed text is only ever shown, never stored. On success the reloaded branch therefore drops it. The model states this as the source does.
- Tools.ToggleToolSaves: a throwing chat save skips the defaults save, because both saves sit in one `try` block. The defaults save is therefore not attempted on every toggle.
- MessageActions.ActionBar: the message list always passes `isLoading={false}` to the bar (`app/components/ChatMessageList.tsx:132`), so in the app the "disabled while loading" case never arises. The bar is modelled for any `isLoading`, as the component is written.
- Controller.Submit: the error's string form (`"" + error`, for example `Error: No response body`) is the parameter `errorText`; JavaScript's error-to-string conversion is not modelled. The fixed apology before it is.
- MessageList.SubmitNeverJustSent: the "user just sent" scroll never fires after a submit, because the optimistic branch ends with the assistant placeholder. The model states the behaviour as written.
