/**
  The device side of progress sync: one session per page, holding the socket,
  the connection flags shown in the interface, and whether the first full sync
  has been answered. Handlers take the session and the puzzle the page shows
  and return the new session plus the effects they cause, in order: toasts,
  navigation requests, frames to send, and opening or closing the socket.
 */
module SyncSession {
  import opened Seqs
  import opened Strings
  import opened OrderedMap
  import opened Protocol
  import opened LocalStore
  import opened Toasts
  import SyncKeys
  import SyncCode

  /** The socket object: absent, or present for a room and open or not. */
  datatype Socket = NoSocket | Socket(room: string, open: bool)

  datatype Session = Session(
    socket: Socket,
    isConnected: bool,
    isConnecting: bool,
    connectionError: Option<string>,
    connectedDevices: nat,
    hasEverSynced: bool,
    initialSyncDone: bool,
    store: Store,
    currentWords: seq<string>)

  /** What the page's getters return: current puzzle key, date and language. */
  datatype View = View(puzzleKey: string, date: string, lang: string)

  datatype Effect =
    | ShowToast(toast: Toast)
    | NavigateTo(date: string, lang: string)
    | Transmit(msg: ClientMessage)
    | OpenSocket(room: string)
    | CloseSocket

  datatype Outcome = Outcome(session: Session, effects: seq<Effect>)

  const ConnectionError: string := "Connection error"

  function Plural(n: nat): string {
    if n > 1 then "s" else ""
  }

  function SuccessToast(message: string): (t: Toast)
    ensures t.kind == Some(Success) && t.duration.None? && t.message == message
  {
    Toast(message, Some(Success), None)
  }

  predicate IsToast(e: Effect) {
    e.ShowToast?
  }

  predicate IsNavigation(e: Effect) {
    e.NavigateTo?
  }

  datatype Merge = Merge(session: Session, added: nat)

  /**
    `mergePuzzleWords`: merge remote words into the stored list of one puzzle;
    store and update the page's word set only when something was added.
   */
  function MergePuzzleWords(s: Session, view: View, key: string, remote: seq<string>): (r: Merge)
    ensures r.added == |Elems(remote) - Elems(GetPuzzleFromLocal(s.store, key))|
    ensures r.added == 0 ==> r.session == s
    ensures r.added > 0 ==>
      r.session.store == SavePuzzleToLocal(s.store, key, Dedup(GetPuzzleFromLocal(s.store, key) + remote))
    ensures r.added > 0 && key == view.puzzleKey ==>
      Elems(r.session.currentWords) == Elems(s.currentWords) + Elems(remote) && NoDup(r.session.currentWords)
    ensures !(r.added > 0 && key == view.puzzleKey) ==> r.session.currentWords == s.currentWords
    ensures r.session == s.(store := r.session.store, currentWords := r.session.currentWords)
  {
    var local := GetPuzzleFromLocal(s.store, key);
    var m := SyncKeys.MergeWordSets(local, remote);
    SyncKeys.MergeAddedCount(local, remote);
    SyncKeys.MergeIsDedupOfConcat(local, remote);
    if m.added == 0 then Merge(s, 0)
    else
      var words := if key == view.puzzleKey then SyncKeys.MergeWordSets(s.currentWords, remote).merged
                   else s.currentWords;
      Merge(s.(store := SavePuzzleToLocal(s.store, key, m.merged), currentWords := words), m.added)
  }

  /** A merge never takes a word away from any stored puzzle, and only touches its own. */
  lemma MergeNeverRemoves(s: Session, view: View, key: string, remote: seq<string>, other: string)
    ensures var after := MergePuzzleWords(s, view, key, remote).session.store;
            && Elems(GetPuzzleFromLocal(s.store, other)) <= Elems(GetPuzzleFromLocal(after, other))
            && (other != key ==> GetPuzzleFromLocal(after, other) == GetPuzzleFromLocal(s.store, other))
            && (other == key ==> Elems(GetPuzzleFromLocal(after, other))
                                 == Elems(GetPuzzleFromLocal(s.store, key)) + Elems(remote))
  {
    var local := GetPuzzleFromLocal(s.store, key);
    var r := MergePuzzleWords(s, view, key, remote);
    if r.added > 0 {
      SaveThenGet(s.store, key, Dedup(local + remote), other);
      ElemsConcat(local, remote);
    } else {
      NothingNew(Elems(remote), Elems(local));
    }
  }

  /** A merge adds something exactly when the remote list brings a word that is not stored. */
  lemma MergeAddsIffNews(s: Session, view: View, key: string, remote: seq<string>)
    ensures MergePuzzleWords(s, view, key, remote).added > 0
            <==> !(Elems(remote) <= Elems(GetPuzzleFromLocal(s.store, key)))
  {
    NothingNew(Elems(remote), Elems(GetPuzzleFromLocal(s.store, key)));
  }

  lemma NothingNew<T>(a: set<T>, b: set<T>)
    ensures |a - b| == 0 <==> a <= b
    ensures a <= b ==> b + a == b
  {
    if |a - b| == 0 {
      assert a - b == {};
      forall x | x in a ensures x in b {
        assert x !in a - b;
      }
    }
  }

  /** The loop of `handleSyncAll` over the remote puzzles, adding up the words each merge added. */
  function MergeEach(s: Session, view: View, remote: Puzzles, keys: seq<string>): (r: Merge)
    requires forall k | k in keys :: k in remote.values
    decreases |keys|
  {
    if |keys| == 0 then Merge(s, 0)
    else
      var m := MergePuzzleWords(s, view, keys[0], remote.values[keys[0]]);
      var rest := MergeEach(m.session, view, remote, keys[1..]);
      Merge(rest.session, m.added + rest.added)
  }

  /** A remote puzzle that brings a word the device does not have stored. */
  predicate BringsNews(store: Store, remote: Puzzles, k: string)
    requires k in remote.values
  {
    !(Elems(remote.values[k]) <= Elems(GetPuzzleFromLocal(store, k)))
  }

  /** After the loop each listed puzzle holds the union of its old and remote words; the others are untouched. */
  lemma {:induction false} MergeEachStore(s: Session, view: View, remote: Puzzles, keys: seq<string>, k: string)
    requires forall j | j in keys :: j in remote.values
    requires NoDup(keys)
    ensures k in keys ==>
      Elems(GetPuzzleFromLocal(MergeEach(s, view, remote, keys).session.store, k))
      == Elems(GetPuzzleFromLocal(s.store, k)) + Elems(remote.values[k])
    ensures k !in keys ==>
      GetPuzzleFromLocal(MergeEach(s, view, remote, keys).session.store, k) == GetPuzzleFromLocal(s.store, k)
    decreases |keys|
  {
    if |keys| > 0 {
      var k0, rest := keys[0], keys[1..];
      var m := MergePuzzleWords(s, view, k0, remote.values[k0]);
      assert k0 !in rest;
      MergeEachStore(m.session, view, remote, rest, k);
      InHeadOrTail(keys, k);
      MergeNeverRemoves(s, view, k0, remote.values[k0], k);
    }
  }

  /** The loop's total is positive exactly when some listed remote puzzle brings news. */
  lemma {:induction false} MergeEachAdded(s: Session, view: View, remote: Puzzles, keys: seq<string>)
    requires forall j | j in keys :: j in remote.values
    requires NoDup(keys)
    ensures MergeEach(s, view, remote, keys).added > 0 <==> exists j | j in keys :: BringsNews(s.store, remote, j)
    decreases |keys|
  {
    if |keys| > 0 {
      var k0, rest := keys[0], keys[1..];
      var m := MergePuzzleWords(s, view, k0, remote.values[k0]);
      assert k0 !in rest;
      MergeEachAdded(m.session, view, remote, rest);
      MergeAddsIffNews(s, view, k0, remote.values[k0]);
      forall j | j in rest
        ensures BringsNews(m.session.store, remote, j) == BringsNews(s.store, remote, j)
      {
        MergeNeverRemoves(s, view, k0, remote.values[k0], j);
      }
      var restNews := exists j | j in rest :: BringsNews(s.store, remote, j);
      assert (exists j | j in rest :: BringsNews(m.session.store, remote, j)) == restNews;
      assert (exists j | j in keys :: BringsNews(s.store, remote, j))
             <==> BringsNews(s.store, remote, k0) || restNews by {
        forall j | j in keys ensures j == k0 || j in rest {
          InHeadOrTail(keys, j);
        }
        assert k0 in keys;
        assert forall j | j in rest :: j in keys;
      }
    }
  }

  /**
    A `sync-all` reply: merge every puzzle, toast the total if it is positive,
    and on the session's first reply ask to open the last active puzzle when
    its date and language are both non-empty.
   */
  function OnSyncAllReply(s: Session, view: View, remote: Puzzles, lastActive: Option<PuzzleRef>): (o: Outcome)
    ensures o.session.initialSyncDone
    ensures forall i | 0 <= i < |o.effects| :: o.effects[i].ShowToast? || o.effects[i].NavigateTo?
  {
    assert forall k | k in remote.keys :: k in Elems(remote.keys);
    var m := MergeEach(s, view, remote, remote.keys);
    SyncAllEffects(m, s.initialSyncDone, lastActive)
  }

  /** The reply's outcome once the merge `m` is done: the toast, then the navigation. */
  function SyncAllEffects(m: Merge, wasDone: bool, lastActive: Option<PuzzleRef>): (o: Outcome)
    ensures o.session.initialSyncDone
    ensures forall i | 0 <= i < |o.effects| :: o.effects[i].ShowToast? || o.effects[i].NavigateTo?
  {
    var toasts :=
      if m.added > 0
      then [ShowToast(SuccessToast(SyncedText(m.added) + " from other devices"))]
      else [];
    var nav :=
      if !wasDone && lastActive.Some? && lastActive.value.date != "" && lastActive.value.lang != ""
      then [NavigateTo(lastActive.value.date, lastActive.value.lang)]
      else [];
    Outcome(m.session.(initialSyncDone := true), toasts + nav)
  }

  /** A `sync-all` reply toasts exactly when some remote puzzle brings a word the device lacks. */
  lemma SyncAllToastIff(s: Session, view: View, remote: Puzzles, lastActive: Option<PuzzleRef>)
    ensures var o := OnSyncAllReply(s, view, remote, lastActive);
            (exists i | 0 <= i < |o.effects| :: IsToast(o.effects[i]))
            <==> exists j | j in remote.keys :: BringsNews(s.store, remote, j)
  {
    assert forall k | k in remote.keys :: k in Elems(remote.keys);
    MergeEachAdded(s, view, remote, remote.keys);
    var o := OnSyncAllReply(s, view, remote, lastActive);
    if MergeEach(s, view, remote, remote.keys).added > 0 {
      assert IsToast(o.effects[0]);
    }
  }

  /** A `sync-all` reply asks to navigate only on the first reply and only to a complete pointer. */
  lemma SyncAllNavigationIff(s: Session, view: View, remote: Puzzles, lastActive: Option<PuzzleRef>)
    ensures var o := OnSyncAllReply(s, view, remote, lastActive);
            (exists i | 0 <= i < |o.effects| :: IsNavigation(o.effects[i]))
            <==> !s.initialSyncDone && lastActive.Some? && lastActive.value.date != "" && lastActive.value.lang != ""
  {
    var o := OnSyncAllReply(s, view, remote, lastActive);
    if !s.initialSyncDone && lastActive.Some? && lastActive.value.date != "" && lastActive.value.lang != "" {
      assert IsNavigation(o.effects[|o.effects| - 1]);
    }
  }

  /** After each listed puzzle is merged, the store holds every word sent for it. */
  lemma SyncAllStoresUnion(s: Session, view: View, remote: Puzzles, lastActive: Option<PuzzleRef>, k: string)
    requires k in remote.values
    ensures Elems(GetPuzzleFromLocal(OnSyncAllReply(s, view, remote, lastActive).session.store, k))
            == Elems(GetPuzzleFromLocal(s.store, k)) + Elems(remote.values[k])
  {
    assert forall j | j in remote.keys :: j in Elems(remote.keys);
    MergeEachStore(s, view, remote, remote.keys, k);
  }

  /** Once a `sync-all` reply has been handled, later replies never navigate. */
  lemma NavigatesOnlyOnce(s: Session, view: View, remote: Puzzles, lastActive: Option<PuzzleRef>,
                          remote2: Puzzles, lastActive2: Option<PuzzleRef>)
    ensures var o := OnSyncAllReply(s, view, remote, lastActive);
            forall e | e in OnSyncAllReply(o.session, view, remote2, lastActive2).effects :: !IsNavigation(e)
  {
  }

  function SyncedText(n: nat): string {
    "Synced " + NatToString(n) + " word" + Plural(n)
  }

  /** A `sync-puzzle` frame: merge one puzzle and toast what it added. */
  function OnSyncPuzzle(s: Session, view: View, key: string, words: seq<string>): (o: Outcome)
    ensures o.session == MergePuzzleWords(s, view, key, words).session
    ensures forall i | 0 <= i < |o.effects| :: o.effects[i].ShowToast? && o.effects[i].toast.kind == Some(Success)
  {
    var m := MergePuzzleWords(s, view, key, words);
    Outcome(m.session, SyncedToasts(m.added))
  }

  /** The toast of a `sync-puzzle` frame that added `n` words, if any did. */
  function SyncedToasts(n: nat): (e: seq<Effect>)
    ensures |e| <= 1 && (|e| == 1 <==> n > 0)
    ensures forall i | 0 <= i < |e| :: e[i].ShowToast? && e[i].toast.kind == Some(Success)
  {
    if n > 0 then [ShowToast(SuccessToast(SyncedText(n)))] else []
  }

  /** A `sync-puzzle` frame toasts once exactly when it brings a word that is not stored. */
  lemma SyncPuzzleToastIff(s: Session, view: View, key: string, words: seq<string>)
    ensures var o := OnSyncPuzzle(s, view, key, words);
            && |o.effects| <= 1
            && (|o.effects| == 1 <==> !(Elems(words) <= Elems(GetPuzzleFromLocal(s.store, key))))
  {
    MergeAddsIffNews(s, view, key, words);
  }

  /** A `word` frame from another device: toast only for a new word of the puzzle on screen. */
  function OnRemoteWord(s: Session, view: View, key: string, word: string): (o: Outcome)
    ensures o.session == MergePuzzleWords(s, view, key, [word]).session
    ensures forall i | 0 <= i < |o.effects| :: o.effects[i] == ShowToast(SuccessToast("+1 word synced"))
  {
    var m := MergePuzzleWords(s, view, key, [word]);
    Outcome(m.session, if m.added > 0 && key == view.puzzleKey then [ShowToast(SuccessToast("+1 word synced"))] else [])
  }

  /** The toast for a relayed word appears exactly when the word is new to the puzzle on screen. */
  lemma RemoteWordToastIff(s: Session, view: View, key: string, word: string)
    ensures var o := OnRemoteWord(s, view, key, word);
            (exists i | 0 <= i < |o.effects| :: IsToast(o.effects[i]))
            <==> word !in GetPuzzleFromLocal(s.store, key) && key == view.puzzleKey
  {
    var local := GetPuzzleFromLocal(s.store, key);
    MergeAddsIffNews(s, view, key, [word]);
    assert Elems([word]) <= Elems(local) <==> word in local by {
      assert word in Elems([word]);
    }
    var o := OnRemoteWord(s, view, key, word);
    if |o.effects| > 0 {
      assert IsToast(o.effects[0]);
    }
  }

  /** `handleIncomingMessage`: frames that do not parse, or of unknown type, change nothing. */
  function OnMessage(s: Session, view: View, m: Incoming<ServerMessage>): (o: Outcome)
    ensures !m.Parsed? ==> o == Outcome(s, [])
    ensures m.Parsed? && m.msg.SyncStatus? ==>
      o == Outcome(s.(connectedDevices := m.msg.count, hasEverSynced := m.msg.hasEverSynced), [])
  {
    match m
    case Parsed(SyncAllReply(puzzles, lastActive)) => OnSyncAllReply(s, view, puzzles, lastActive)
    case Parsed(SyncPuzzle(key, words)) => OnSyncPuzzle(s, view, key, words)
    case Parsed(NewWord(key, word)) => OnRemoteWord(s, view, key, word)
    case Parsed(SyncStatus(count, synced)) => Outcome(s.(connectedDevices := count, hasEverSynced := synced), [])
    case _ => Outcome(s, [])
  }

  /**
    `connect`: only with sync enabled and no socket object yet; opens a socket
    for the normalised room id.
   */
  function Connect(s: Session, code: Option<string>): (o: Outcome)
    ensures !SyncCode.IsEnabled(code) || s.socket.Socket? ==> o == Outcome(s, [])
    ensures SyncCode.IsEnabled(code) && s.socket.NoSocket? ==>
      && o.session == s.(socket := Socket(SyncKeys.NormalizeRoomId(code.value), false),
                         isConnecting := true, connectionError := None, connectedDevices := 0)
      && o.effects == [OpenSocket(SyncKeys.NormalizeRoomId(code.value))]
  {
    if !SyncCode.IsEnabled(code) || s.socket.Socket? then Outcome(s, [])
    else
      var room := SyncKeys.NormalizeRoomId(code.value);
      Outcome(s.(socket := Socket(room, false), isConnecting := true, connectionError := None, connectedDevices := 0),
              [OpenSocket(room)])
  }

  /** `disconnect`: close and drop the socket and reset the connection flags. */
  function Disconnect(s: Session): (o: Outcome)
    ensures o.session.socket.NoSocket?
    ensures !o.session.isConnected && !o.session.isConnecting
    ensures o.session.connectedDevices == 0 && !o.session.hasEverSynced
    ensures o.session.store == s.store && o.session.initialSyncDone == s.initialSyncDone
    ensures o.effects == if s.socket.Socket? then [CloseSocket] else []
  {
    Outcome(s.(socket := NoSocket, isConnected := false, isConnecting := false, connectedDevices := 0, hasEverSynced := false),
            if s.socket.Socket? then [CloseSocket] else [])
  }

  /** `sendSyncAll`: only over an open socket, with the current puzzle when there is one. */
  function SendSyncAll(s: Session, view: View): (effects: seq<Effect>)
    ensures !(s.socket.Socket? && s.socket.open) ==> effects == []
    ensures s.socket.Socket? && s.socket.open ==>
      && |effects| == 1 && effects[0].Transmit? && effects[0].msg.SyncAll?
      && effects[0].msg.puzzles == GetAllLocalPuzzles(s.store)
      && (effects[0].msg.currentPuzzle.Some? <==> view.puzzleKey != "")
  {
    if s.socket.Socket? && s.socket.open then
      [Transmit(SyncAll(GetAllLocalPuzzles(s.store),
                        if view.puzzleKey != "" then Some(PuzzleRef(view.puzzleKey, view.date, view.lang)) else None))]
    else []
  }

  /** `sendWord`: only over an open socket, tagged with the current puzzle and date. */
  function SendWord(s: Session, view: View, word: string): (effects: seq<Effect>)
    ensures !(s.socket.Socket? && s.socket.open) ==> effects == []
    ensures s.socket.Socket? && s.socket.open ==> effects == [Transmit(Word(view.puzzleKey, word, Some(view.date)))]
  {
    if s.socket.Socket? && s.socket.open then [Transmit(Word(view.puzzleKey, word, Some(view.date)))] else []
  }

  /** The socket opened: mark connected and send everything stored. */
  function OnOpen(s: Session, view: View): (o: Outcome)
    ensures o.session.isConnected && !o.session.isConnecting
    ensures s.socket.Socket? ==> |o.effects| == 1 && o.effects[0].Transmit? && o.effects[0].msg.SyncAll?
    ensures s.socket.NoSocket? ==> o.effects == []
  {
    var sock := if s.socket.Socket? then s.socket.(open := true) else NoSocket;
    var s' := s.(socket := sock, isConnected := true, isConnecting := false);
    Outcome(s', SendSyncAll(s', view))
  }

  /** The socket closed: no longer connected, no devices known. */
  function OnClose(s: Session): (o: Outcome)
    ensures !o.session.isConnected && o.session.connectedDevices == 0
    ensures o.session.isConnecting == s.isConnecting && o.session.hasEverSynced == s.hasEverSynced
    ensures o.effects == []
  {
    var sock := if s.socket.Socket? then s.socket.(open := false) else NoSocket;
    Outcome(s.(socket := sock, isConnected := false, connectedDevices := 0), [])
  }

  /** The socket failed: record the error and stop connecting. */
  function OnError(s: Session): (o: Outcome)
    ensures o.session.connectionError == Some(ConnectionError)
    ensures !o.session.isConnected && !o.session.isConnecting
    ensures o.session.socket == s.socket && o.effects == []
  {
    Outcome(s.(connectionError := Some(ConnectionError), isConnecting := false, isConnected := false), [])
  }

  /** The watcher on (enabled, online): connect when both hold, disconnect otherwise. */
  function OnWatch(s: Session, code: Option<string>, online: bool): (o: Outcome)
    ensures SyncCode.IsEnabled(code) && online ==> o == Connect(s, code)
    ensures !(SyncCode.IsEnabled(code) && online) ==> o == Disconnect(s)
  {
    if SyncCode.IsEnabled(code) && online then Connect(s, code) else Disconnect(s)
  }

  datatype Event =
    | Watch(code: Option<string>, online: bool)
    | Opened
    | Received(frame: Incoming<ServerMessage>)
    | Closed
    | Failed
    | Found(word: string)
    | Unmount

  function Handle(s: Session, view: View, e: Event): Outcome {
    match e
    case Watch(code, online) => OnWatch(s, code, online)
    case Opened => OnOpen(s, view)
    case Received(m) => OnMessage(s, view, m)
    case Closed => OnClose(s)
    case Failed => OnError(s)
    case Found(word) => Outcome(s, SendWord(s, view, word))
    case Unmount => Disconnect(s)
  }

  /** The invariant every handler keeps: the page's word set has no duplicates. */
  predicate Inv(s: Session) {
    NoDup(s.currentWords)
  }

  lemma {:induction false} MergeEachSafe(s: Session, view: View, remote: Puzzles, keys: seq<string>, key: string)
    requires forall j | j in keys :: j in remote.values
    requires Inv(s)
    ensures Inv(MergeEach(s, view, remote, keys).session)
    ensures Elems(GetPuzzleFromLocal(s.store, key))
            <= Elems(GetPuzzleFromLocal(MergeEach(s, view, remote, keys).session.store, key))
    ensures MergeEach(s, view, remote, keys).session.socket == s.socket
    decreases |keys|
  {
    if |keys| > 0 {
      var m := MergePuzzleWords(s, view, keys[0], remote.values[keys[0]]);
      MergeNeverRemoves(s, view, keys[0], remote.values[keys[0]], key);
      MergeEachSafe(m.session, view, remote, keys[1..], key);
    }
  }

  /** Handling a frame keeps the invariant, loses no stored word and sends nothing. */
  lemma MessageSafe(s: Session, view: View, m: Incoming<ServerMessage>, key: string)
    requires Inv(s)
    ensures Inv(OnMessage(s, view, m).session)
    ensures Elems(GetPuzzleFromLocal(s.store, key)) <= Elems(GetPuzzleFromLocal(OnMessage(s, view, m).session.store, key))
    ensures forall i | 0 <= i < |OnMessage(s, view, m).effects| :: !OnMessage(s, view, m).effects[i].Transmit?
  {
    if m.Parsed? && m.msg.SyncAllReply? {
      assert OnMessage(s, view, m) == OnSyncAllReply(s, view, m.msg.puzzles, m.msg.lastActivePuzzle);
      SyncAllReplySafe(s, view, m.msg.puzzles, m.msg.lastActivePuzzle, key);
    } else if m.Parsed? && m.msg.SyncPuzzle? {
      assert OnMessage(s, view, m) == OnSyncPuzzle(s, view, m.msg.puzzleKey, m.msg.words);
      SyncPuzzleSafe(s, view, m.msg.puzzleKey, m.msg.words, key);
    } else if m.Parsed? && m.msg.NewWord? {
      assert OnMessage(s, view, m) == OnRemoteWord(s, view, m.msg.puzzleKey, m.msg.word);
      RemoteWordSafe(s, view, m.msg.puzzleKey, m.msg.word, key);
    }
  }

  lemma SyncAllReplySafe(s: Session, view: View, puzzles: Puzzles, lastActive: Option<PuzzleRef>, key: string)
    requires Inv(s)
    ensures var o := OnSyncAllReply(s, view, puzzles, lastActive);
            && Inv(o.session)
            && Elems(GetPuzzleFromLocal(s.store, key)) <= Elems(GetPuzzleFromLocal(o.session.store, key))
            && forall i | 0 <= i < |o.effects| :: !o.effects[i].Transmit?
  {
    assert forall k | k in puzzles.keys :: k in Elems(puzzles.keys);
    MergeEachSafe(s, view, puzzles, puzzles.keys, key);
  }

  lemma SyncPuzzleSafe(s: Session, view: View, puzzleKey: string, words: seq<string>, key: string)
    requires Inv(s)
    ensures var o := OnSyncPuzzle(s, view, puzzleKey, words);
            && Inv(o.session)
            && Elems(GetPuzzleFromLocal(s.store, key)) <= Elems(GetPuzzleFromLocal(o.session.store, key))
            && forall i | 0 <= i < |o.effects| :: !o.effects[i].Transmit?
  {
    MergeNeverRemoves(s, view, puzzleKey, words, key);
  }

  lemma RemoteWordSafe(s: Session, view: View, puzzleKey: string, word: string, key: string)
    requires Inv(s)
    ensures var o := OnRemoteWord(s, view, puzzleKey, word);
            && Inv(o.session)
            && Elems(GetPuzzleFromLocal(s.store, key)) <= Elems(GetPuzzleFromLocal(o.session.store, key))
            && forall i | 0 <= i < |o.effects| :: !o.effects[i].Transmit?
  {
    MergeNeverRemoves(s, view, puzzleKey, [word], key);
  }

  /**
    Whatever happens, no stored word is lost, the page's word set stays
    duplicate-free, and a frame is only sent over an open socket.
   */
  lemma HandleSafe(s: Session, view: View, e: Event, key: string)
    requires Inv(s)
    ensures Inv(Handle(s, view, e).session)
    ensures Elems(GetPuzzleFromLocal(s.store, key)) <= Elems(GetPuzzleFromLocal(Handle(s, view, e).session.store, key))
    ensures forall f | f in Handle(s, view, e).effects && f.Transmit? ::
              Handle(s, view, e).session.socket.Socket? && Handle(s, view, e).session.socket.open
  {
    if e.Received? {
      MessageSafe(s, view, e.frame, key);
    }
  }
}
