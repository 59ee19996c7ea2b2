/**
  The sync room: one per sync code. It keeps the union of the words every
  connected device has found, the puzzle most recently played, and whether two
  devices ever shared data; it answers a full sync with the merged state and
  relays single words to the other devices.

  Each event handler is a function from the room and the event to the new room
  and the frames the room sends, in order.
 */
module SyncRoom {
  import opened Seqs
  import opened OrderedMap
  import opened Protocol
  import Strings

  type ConnId = string

  /** `lastActivePuzzle` as stored: the puzzle plus the time it was written. */
  datatype StoredPointer = StoredPointer(puzzle: PuzzleRef, timestamp: int)

  /**
    The room's connections and durable storage. `puzzles[k]` is storage entry
    `puzzle:k`; the other two fields are the entries `lastActivePuzzle` and
    `hasEverSynced` (absent reads as false).
   */
  datatype Room = Room(
    connections: set<ConnId>,
    puzzles: Puzzles,
    lastActive: Option<StoredPointer>,
    hasEverSynced: bool)

  /** A frame to one connection, or to every connection except those in `without`. */
  datatype Outbound =
    | Send(to: ConnId, msg: ServerMessage)
    | Broadcast(msg: ServerMessage, without: set<ConnId>)

  datatype Step = Step(room: Room, out: seq<Outbound>)

  /** Stored word lists are duplicate-free and never empty. */
  predicate Inv(r: Room) {
    forall k | k in r.puzzles.values :: NoDup(r.puzzles.values[k]) && |r.puzzles.values[k]| > 0
  }

  function StatusMessage(r: Room): (m: ServerMessage)
    ensures m.SyncStatus? && m.count == |r.connections| && m.hasEverSynced == r.hasEverSynced
  {
    SyncStatus(|r.connections|, r.hasEverSynced)
  }

  /**
    `onConnect`: with the new device counted, a room holding puzzle data and
    more than one device becomes synced for good; everyone gets the status,
    and the new device gets it once more.
   */
  function OnConnect(r: Room, c: ConnId): (s: Step)
    ensures s.room.connections == r.connections + {c}
    ensures s.room.puzzles == r.puzzles && s.room.lastActive == r.lastActive
    ensures s.room.hasEverSynced <==>
      r.hasEverSynced || (|r.connections + {c}| > 1 && |r.puzzles.keys| > 0)
    ensures s.out == [Broadcast(StatusMessage(s.room), {}), Send(c, StatusMessage(s.room))]
  {
    var conns := r.connections + {c};
    var synced := r.hasEverSynced || (|conns| > 1 && |r.puzzles.keys| > 0);
    var r' := r.(connections := conns, hasEverSynced := synced);
    Step(r', [Broadcast(StatusMessage(r'), {}), Send(c, StatusMessage(r'))])
  }

  /** `onClose`: the remaining devices learn the new count. */
  function OnClose(r: Room, c: ConnId): (s: Step)
    ensures s.room.connections == r.connections - {c}
    ensures s.room.puzzles == r.puzzles && s.room.lastActive == r.lastActive
    ensures s.room.hasEverSynced == r.hasEverSynced
    ensures s.out == [Broadcast(SyncStatus(|r.connections - {c}|, r.hasEverSynced), {})]
  {
    var r' := r.(connections := r.connections - {c});
    Step(r', [Broadcast(StatusMessage(r'), {})])
  }

  /** `[...new Set([...serverWords, ...clientWords])]` for one key. */
  function Merged(store: Puzzles, client: Puzzles, k: string): (m: seq<string>)
    ensures NoDup(m)
    ensures Elems(m) == Elems(WordsOf(store, k)) + Elems(WordsOf(client, k))
  {
    var s, c := WordsOf(store, k), WordsOf(client, k);
    ElemsConcat(s, c);
    Dedup(s + c)
  }

  /** The merge brought the server something new for `k`. */
  predicate Grows(store: Puzzles, client: Puzzles, k: string) {
    |Merged(store, client, k)| > |WordsOf(store, k)|
  }

  /** The three records built while `handleSyncAll` walks the keys. */
  datatype Acc = Acc(store: Puzzles, reply: Puzzles, updated: Puzzles)

  /** One iteration of the merge loop. */
  function MergeOne(k: string, client: Puzzles, a: Acc): (b: Acc)
  {
    var merged := Merged(a.store, client, k);
    var grows := Grows(a.store, client, k);
    Acc(
      if grows then Put(a.store, k, merged) else a.store,
      if |merged| > 0 then Put(a.reply, k, merged) else a.reply,
      if grows then Put(a.updated, k, merged) else a.updated)
  }

  /** The merge loop over `keys`, in order. */
  function MergeKeys(keys: seq<string>, client: Puzzles, a: Acc): (b: Acc)
    decreases |keys|
  {
    if |keys| == 0 then a else MergeKeys(keys[1..], client, MergeOne(keys[0], client, a))
  }

  /** The merge loop of `handleSyncAll`, starting from the stored lists and two empty records. */
  function SyncAllMerge(r: Room, client: Puzzles): Acc {
    MergeKeys(AllKeys(r, client), client, Acc(r.puzzles, Empty(), Empty()))
  }

  /** `new Set([...Object.keys(clientPuzzles), ...getAllPuzzleKeys()])`. */
  function AllKeys(r: Room, client: Puzzles): (ks: seq<string>)
    ensures NoDup(ks)
    ensures Elems(ks) == Elems(client.keys) + Elems(r.puzzles.keys)
  {
    ElemsConcat(client.keys, r.puzzles.keys);
    Dedup(client.keys + r.puzzles.keys)
  }

  function StoredRef(p: Option<StoredPointer>): (q: Option<PuzzleRef>)
    ensures q.Some? <==> p.Some?
    ensures q.Some? ==> q.value == p.value.puzzle
  {
    match p
    case Some(sp) => Some(sp.puzzle)
    case None => None
  }

  /** One `sync-puzzle` frame per updated key, to everyone but the sender. */
  function PuzzleBroadcasts(updated: Puzzles, sender: ConnId): (out: seq<Outbound>)
    ensures |out| == |updated.keys|
    ensures forall i | 0 <= i < |out| ::
      out[i] == Broadcast(SyncPuzzle(updated.keys[i], WordsOf(updated, updated.keys[i])), {sender})
  {
    seq(|updated.keys|, i requires 0 <= i < |updated.keys| =>
      Broadcast(SyncPuzzle(updated.keys[i], WordsOf(updated, updated.keys[i])), {sender}))
  }

  /**
    `handleSyncAll`: merge every key either side knows, store what grew, reply
    with the merged lists and the pointer as it was before this message, move
    the pointer to the sender's current puzzle, and relay the grown lists.
   */
  function HandleSyncAll(r: Room, sender: ConnId, client: Puzzles, current: Option<PuzzleRef>, now: int): (s: Step)
    ensures s.room.connections == r.connections && s.room.hasEverSynced == r.hasEverSynced
    ensures current.Some? ==> s.room.lastActive == Some(StoredPointer(current.value, now))
    ensures current.None? ==> s.room.lastActive == r.lastActive
    ensures |s.out| >= 1 && s.out[0].Send? && s.out[0].to == sender
    ensures s.out[0].msg.SyncAllReply? && s.out[0].msg.lastActivePuzzle == StoredRef(r.lastActive)
    ensures forall i | 1 <= i < |s.out| ::
      s.out[i].Broadcast? && s.out[i].without == {sender} && s.out[i].msg.SyncPuzzle?
  {
    var a := SyncAllMerge(r, client);
    var pointer := if current.Some? then Some(StoredPointer(current.value, now)) else r.lastActive;
    var reply := Send(sender, SyncAllReply(a.reply, StoredRef(r.lastActive)));
    Step(r.(puzzles := a.store, lastActive := pointer), [reply] + PuzzleBroadcasts(a.updated, sender))
  }

  /** `puzzleKey.split('-')[0] || 'en'`. */
  function LangOfKey(key: string): (lang: string)
    ensures '-' !in lang
    ensures |lang| > 0
    ensures Strings.Split(key, '-')[0] == "" ==> lang == "en"
  {
    var head := Strings.Split(key, '-')[0];
    if head == "" then "en" else head
  }

  /**
    `handleNewWord`: a word the room already has changes nothing; a new one is
    appended, moves the pointer when the message carries a non-empty date, and
    goes to every other device.
   */
  function HandleNewWord(r: Room, sender: ConnId, key: string, word: string, date: Option<string>, now: int): (s: Step)
    ensures s.room.connections == r.connections && s.room.hasEverSynced == r.hasEverSynced
    ensures word in WordsOf(r.puzzles, key) ==> s == Step(r, [])
    ensures word !in WordsOf(r.puzzles, key) ==>
      && s.room.puzzles.values == r.puzzles.values[key := WordsOf(r.puzzles, key) + [word]]
      && s.out == [Broadcast(NewWord(key, word), {sender})]
      && s.room.lastActive == (if date.Some? && date.value != ""
                               then Some(StoredPointer(PuzzleRef(key, date.value, LangOfKey(key)), now))
                               else r.lastActive)
  {
    var words := WordsOf(r.puzzles, key);
    if word in words then Step(r, [])
    else
      var pointer :=
        if date.Some? && date.value != ""
        then Some(StoredPointer(PuzzleRef(key, date.value, LangOfKey(key)), now))
        else r.lastActive;
      Step(r.(puzzles := Put(r.puzzles, key, words + [word]), lastActive := pointer),
           [Broadcast(NewWord(key, word), {sender})])
  }

  /** `onMessage`: frames that are not JSON, or of a type the room does not handle, are ignored. */
  function OnMessage(r: Room, sender: ConnId, m: Incoming<ClientMessage>, now: int): (s: Step)
    ensures !m.Parsed? ==> s == Step(r, [])
  {
    match m
    case Parsed(SyncAll(puzzles, current)) => HandleSyncAll(r, sender, puzzles, current, now)
    case Parsed(Word(key, word, date)) => HandleNewWord(r, sender, key, word, date, now)
    case _ => Step(r, [])
  }

  /** Everything that can happen to a room. */
  datatype Event =
    | Connect(conn: ConnId)
    | Close(conn: ConnId)
    | Message(sender: ConnId, frame: Incoming<ClientMessage>, now: int)

  function Handle(r: Room, e: Event): (s: Step)
  {
    match e
    case Connect(c) => OnConnect(r, c)
    case Close(c) => OnClose(r, c)
    case Message(sender, m, now) => OnMessage(r, sender, m, now)
  }

  /** A room that has not seen any event. */
  function NewRoom(): (r: Room)
    ensures Inv(r)
  {
    Room({}, Empty(), None, false)
  }

  // ---------------------------------------------------------------------------
  // Properties of the merge loop.

  lemma MergeOneOtherKey(k: string, j: string, client: Puzzles, a: Acc)
    requires j != k
    ensures WordsOf(MergeOne(k, client, a).store, j) == WordsOf(a.store, j)
  {
  }

  /** One iteration touches only its own key, and leaves the merge of every other key as it was. */
  lemma MergeOneAt(k0: string, client: Puzzles, a: Acc, k: string)
    ensures Get(MergeOne(k0, client, a).store, k)
      == if k == k0 && Grows(a.store, client, k) then Some(Merged(a.store, client, k)) else Get(a.store, k)
    ensures Get(MergeOne(k0, client, a).reply, k)
      == if k == k0 && |Merged(a.store, client, k)| > 0 then Some(Merged(a.store, client, k)) else Get(a.reply, k)
    ensures Get(MergeOne(k0, client, a).updated, k)
      == if k == k0 && Grows(a.store, client, k) then Some(Merged(a.store, client, k)) else Get(a.updated, k)
    ensures k != k0 ==> Merged(MergeOne(k0, client, a).store, client, k) == Merged(a.store, client, k)
    ensures k != k0 ==> WordsOf(MergeOne(k0, client, a).store, k) == WordsOf(a.store, k)
  {
    if k != k0 {
      MergeOneOtherKey(k0, k, client, a);
    }
  }

  /**
    After the loop, a key in `keys` holds its merge wherever the merge grew the
    server's list, the reply holds it whenever it is non-empty, and `updated`
    exactly when it grew; keys outside `keys` are untouched.
   */
  lemma MergeKeysAt(keys: seq<string>, client: Puzzles, a: Acc, k: string)
    requires NoDup(keys)
    ensures Get(MergeKeys(keys, client, a).store, k)
      == if k in keys && Grows(a.store, client, k) then Some(Merged(a.store, client, k)) else Get(a.store, k)
    ensures Get(MergeKeys(keys, client, a).reply, k)
      == if k in keys && |Merged(a.store, client, k)| > 0 then Some(Merged(a.store, client, k)) else Get(a.reply, k)
    ensures Get(MergeKeys(keys, client, a).updated, k)
      == if k in keys && Grows(a.store, client, k) then Some(Merged(a.store, client, k)) else Get(a.updated, k)
  {
    MergeKeysStoreAt(keys, client, a, k);
    MergeKeysReplyAt(keys, client, a, k);
    MergeKeysUpdatedAt(keys, client, a, k);
  }

  lemma {:induction false} MergeKeysStoreAt(keys: seq<string>, client: Puzzles, a: Acc, k: string)
    requires NoDup(keys)
    ensures Get(MergeKeys(keys, client, a).store, k)
      == if k in keys && Grows(a.store, client, k) then Some(Merged(a.store, client, k)) else Get(a.store, k)
    decreases |keys|
  {
    if |keys| > 0 {
      var k0, rest := keys[0], keys[1..];
      var a1 := MergeOne(k0, client, a);
      NoDupTail(keys);
      MergeKeysStoreAt(rest, client, a1, k);
      MergeOneAt(k0, client, a, k);
      InHeadOrTail(keys, k);
    }
  }

  lemma {:induction false} MergeKeysReplyAt(keys: seq<string>, client: Puzzles, a: Acc, k: string)
    requires NoDup(keys)
    ensures Get(MergeKeys(keys, client, a).reply, k)
      == if k in keys && |Merged(a.store, client, k)| > 0 then Some(Merged(a.store, client, k)) else Get(a.reply, k)
    decreases |keys|
  {
    if |keys| > 0 {
      var k0, rest := keys[0], keys[1..];
      var a1 := MergeOne(k0, client, a);
      NoDupTail(keys);
      MergeKeysReplyAt(rest, client, a1, k);
      MergeOneAt(k0, client, a, k);
      InHeadOrTail(keys, k);
    }
  }

  lemma {:induction false} MergeKeysUpdatedAt(keys: seq<string>, client: Puzzles, a: Acc, k: string)
    requires NoDup(keys)
    ensures Get(MergeKeys(keys, client, a).updated, k)
      == if k in keys && Grows(a.store, client, k) then Some(Merged(a.store, client, k)) else Get(a.updated, k)
    decreases |keys|
  {
    if |keys| > 0 {
      var k0, rest := keys[0], keys[1..];
      var a1 := MergeOne(k0, client, a);
      NoDupTail(keys);
      MergeKeysUpdatedAt(rest, client, a1, k);
      MergeOneAt(k0, client, a, k);
      InHeadOrTail(keys, k);
    }
  }

  /** Merging into a duplicate-free list that does not grow leaves it as it was. */
  lemma MergeNoGrowth(store: Puzzles, client: Puzzles, k: string)
    requires NoDup(WordsOf(store, k))
    ensures |Merged(store, client, k)| >= |WordsOf(store, k)|
    ensures Merged(store, client, k)[..|WordsOf(store, k)|] == WordsOf(store, k)
    ensures !Grows(store, client, k) ==> Merged(store, client, k) == WordsOf(store, k)
  {
    var old_ := WordsOf(store, k);
    DedupPrefix(old_, WordsOf(client, k));
    DedupNoDup(old_);
  }

  /** What `handleSyncAll` leaves under one key, in storage and in the reply. */
  lemma SyncAllAt(r: Room, sender: ConnId, client: Puzzles, current: Option<PuzzleRef>, now: int, k: string)
    requires Inv(r)
    ensures Get(HandleSyncAll(r, sender, client, current, now).room.puzzles, k)
      == if Merged(r.puzzles, client, k) == [] then None else Some(Merged(r.puzzles, client, k))
    ensures Get(HandleSyncAll(r, sender, client, current, now).out[0].msg.puzzles, k)
      == if Merged(r.puzzles, client, k) == [] then None else Some(Merged(r.puzzles, client, k))
  {
    var keys := AllKeys(r, client);
    var a0 := Acc(r.puzzles, Empty(), Empty());
    MergeKeysAt(keys, client, a0, k);
    var m := Merged(r.puzzles, client, k);
    if k in r.puzzles.values {
      MergeNoGrowth(r.puzzles, client, k);
      assert k in keys;
    } else if k in client.values {
      assert k in keys;
    } else {
      assert m == [];
    }
  }

  /** After a full sync the stored lists are still duplicate-free and non-empty. */
  lemma SyncAllKeepsInv(r: Room, sender: ConnId, client: Puzzles, current: Option<PuzzleRef>, now: int)
    requires Inv(r)
    ensures Inv(HandleSyncAll(r, sender, client, current, now).room)
  {
    var st := HandleSyncAll(r, sender, client, current, now).room.puzzles;
    forall k | k in st.values
      ensures NoDup(st.values[k]) && |st.values[k]| > 0
    {
      SyncAllAt(r, sender, client, current, now, k);
    }
  }

  /** The reply to a full sync carries exactly the state the room now stores. */
  lemma SyncAllReplyIsState(r: Room, sender: ConnId, client: Puzzles, current: Option<PuzzleRef>, now: int)
    requires Inv(r)
    ensures HandleSyncAll(r, sender, client, current, now).out[0].msg.puzzles.values
            == HandleSyncAll(r, sender, client, current, now).room.puzzles.values
  {
    var s := HandleSyncAll(r, sender, client, current, now);
    var st, rep := s.room.puzzles, s.out[0].msg.puzzles;
    forall k
      ensures Get(st, k) == Get(rep, k)
    {
      SyncAllAt(r, sender, client, current, now, k);
    }
    GetExtensional(st, rep);
  }

  /**
    After a full sync the room stores, for every key, the union of its own
    list and the sender's, with its own words first and in their old order.
   */
  lemma SyncAllStoresUnion(r: Room, sender: ConnId, client: Puzzles, current: Option<PuzzleRef>, now: int, k: string)
    requires Inv(r)
    ensures Elems(WordsOf(HandleSyncAll(r, sender, client, current, now).room.puzzles, k))
            == Elems(WordsOf(r.puzzles, k)) + Elems(WordsOf(client, k))
    ensures IsPrefix(WordsOf(r.puzzles, k), WordsOf(HandleSyncAll(r, sender, client, current, now).room.puzzles, k))
  {
    SyncAllAt(r, sender, client, current, now, k);
    MergeNoGrowth(r.puzzles, client, k);
  }

  /** `a` is an initial segment of `b`. */
  predicate IsPrefix<T(==)>(a: seq<T>, b: seq<T>) {
    |a| <= |b| && b[..|a|] == a
  }

  /** Every event keeps the stored lists duplicate-free and non-empty. */
  lemma HandlePreservesInv(r: Room, e: Event)
    requires Inv(r)
    ensures Inv(Handle(r, e).room)
  {
    match e
    case Message(sender, Parsed(SyncAll(client, current)), now) =>
      SyncAllKeepsInv(r, sender, client, current, now);
    case _ =>
  }

  /** The keys of the `sync-puzzle` frames among `out`, in order. */
  function RelayedKeys(out: seq<Outbound>): (ks: seq<string>)
    ensures |ks| <= |out|
  {
    if |out| == 0 then []
    else
      var rest := RelayedKeys(out[..|out| - 1]);
      var o := out[|out| - 1];
      if o.msg.SyncPuzzle? then rest + [o.msg.puzzleKey] else rest
  }

  lemma RelayedKeysOfBroadcasts(updated: Puzzles, sender: ConnId)
    ensures RelayedKeys(PuzzleBroadcasts(updated, sender)) == updated.keys
  {
    var out := PuzzleBroadcasts(updated, sender);
    RelayedKeysPrefix(updated, sender, |out|);
    assert out[..|out|] == out;
    assert updated.keys[..|out|] == updated.keys;
  }

  lemma {:induction false} RelayedKeysPrefix(updated: Puzzles, sender: ConnId, n: nat)
    requires n <= |updated.keys|
    ensures RelayedKeys(PuzzleBroadcasts(updated, sender)[..n]) == updated.keys[..n]
    decreases n
  {
    var out := PuzzleBroadcasts(updated, sender);
    if n > 0 {
      RelayedKeysPrefix(updated, sender, n - 1);
      assert out[..n][..n - 1] == out[..n - 1];
      assert updated.keys[..n] == updated.keys[..n - 1] + [updated.keys[n - 1]];
    }
  }

  lemma {:induction false} RelayedKeysAfterReply(o: Outbound, out: seq<Outbound>)
    requires !o.msg.SyncPuzzle?
    ensures RelayedKeys([o] + out) == RelayedKeys(out)
    decreases |out|
  {
    if |out| > 0 {
      RelayedKeysAfterReply(o, out[..|out| - 1]);
      assert ([o] + out)[..|[o] + out| - 1] == [o] + out[..|out| - 1];
    }
  }

  /** The merge loop records a key as updated exactly when its stored list grew. */
  lemma SyncAllUpdatedAt(r: Room, sender: ConnId, client: Puzzles, current: Option<PuzzleRef>, now: int, k: string)
    requires Inv(r)
    ensures var upd := SyncAllMerge(r, client).updated;
            var st := HandleSyncAll(r, sender, client, current, now).room.puzzles;
            && (k in upd.values <==> |WordsOf(r.puzzles, k)| < |WordsOf(st, k)|)
            && (k in upd.values ==> upd.values[k] == WordsOf(st, k))
  {
    var keys := AllKeys(r, client);
    MergeKeysAt(keys, client, Acc(r.puzzles, Empty(), Empty()), k);
    MergeNoGrowth(r.puzzles, client, k);
  }

  /**
    Besides the reply, a full sync sends one `sync-puzzle` frame per key whose
    stored list grew, to every device but the sender, carrying the list as now
    stored; keys that did not grow are not relayed.
   */
  lemma SyncAllRelaysGrowth(r: Room, sender: ConnId, client: Puzzles, current: Option<PuzzleRef>, now: int)
    requires Inv(r)
    ensures var s := HandleSyncAll(r, sender, client, current, now);
            forall i | 1 <= i < |s.out| ::
              s.out[i].msg.words == WordsOf(s.room.puzzles, s.out[i].msg.puzzleKey)
    ensures var s := HandleSyncAll(r, sender, client, current, now);
            forall k :: k in RelayedKeys(s.out) <==> |WordsOf(r.puzzles, k)| < |WordsOf(s.room.puzzles, k)|
  {
    SyncAllRelaysStored(r, sender, client, current, now);
    SyncAllRelaysGrown(r, sender, client, current, now);
  }

  lemma SyncAllRelaysStored(r: Room, sender: ConnId, client: Puzzles, current: Option<PuzzleRef>, now: int)
    ensures var s := HandleSyncAll(r, sender, client, current, now);
            forall i | 1 <= i < |s.out| ::
              s.out[i].msg.words == WordsOf(s.room.puzzles, s.out[i].msg.puzzleKey)
  {
    var a := SyncAllMerge(r, client);
    var s := HandleSyncAll(r, sender, client, current, now);
    SyncAllShape(r, sender, client, current, now);
    var b := s.out[1..];
    forall i | 1 <= i < |s.out|
      ensures s.out[i].msg.words == WordsOf(a.store, s.out[i].msg.puzzleKey)
    {
      var k := a.updated.keys[i - 1];
      assert s.out[i] == b[i - 1];
      assert k in Elems(a.updated.keys);
      UpdatedIsStored(r, client, k);
    }
  }

  /** The store a full sync leaves, and its relays, are those of the merge loop. */
  lemma SyncAllShape(r: Room, sender: ConnId, client: Puzzles, current: Option<PuzzleRef>, now: int)
    ensures HandleSyncAll(r, sender, client, current, now).room.puzzles == SyncAllMerge(r, client).store
    ensures HandleSyncAll(r, sender, client, current, now).out[1..]
            == PuzzleBroadcasts(SyncAllMerge(r, client).updated, sender)
  {
  }

  /** A key the merge loop records as updated carries the list it stored. */
  lemma UpdatedIsStored(r: Room, client: Puzzles, k: string)
    ensures k in SyncAllMerge(r, client).updated.values ==>
            WordsOf(SyncAllMerge(r, client).updated, k) == WordsOf(SyncAllMerge(r, client).store, k)
  {
    MergeKeysStoreAt(AllKeys(r, client), client, Acc(r.puzzles, Empty(), Empty()), k);
    MergeKeysUpdatedAt(AllKeys(r, client), client, Acc(r.puzzles, Empty(), Empty()), k);
  }

  lemma SyncAllRelaysGrown(r: Room, sender: ConnId, client: Puzzles, current: Option<PuzzleRef>, now: int)
    requires Inv(r)
    ensures var s := HandleSyncAll(r, sender, client, current, now);
            forall k :: k in RelayedKeys(s.out) <==> |WordsOf(r.puzzles, k)| < |WordsOf(s.room.puzzles, k)|
  {
    var s := HandleSyncAll(r, sender, client, current, now);
    var upd := SyncAllMerge(r, client).updated;
    var b := PuzzleBroadcasts(upd, sender);
    assert s.out == [s.out[0]] + b;
    RelayedKeysAfterReply(s.out[0], b);
    RelayedKeysOfBroadcasts(upd, sender);
    forall k
      ensures k in RelayedKeys(s.out) <==> |WordsOf(r.puzzles, k)| < |WordsOf(s.room.puzzles, k)|
    {
      SyncAllUpdatedAt(r, sender, client, current, now, k);
    }
  }

  /**
    No event loses a word: every stored list only grows at its end, and a room
    that was ever synced stays so.
   */
  lemma HandleOnlyGrows(r: Room, e: Event, k: string)
    requires Inv(r)
    ensures IsPrefix(WordsOf(r.puzzles, k), WordsOf(Handle(r, e).room.puzzles, k))
    ensures r.hasEverSynced ==> Handle(r, e).room.hasEverSynced
  {
    match e
    case Message(sender, Parsed(SyncAll(client, current)), now) =>
      SyncAllStoresUnion(r, sender, client, current, now, k);
    case _ =>
  }

  /**
    Handling a device's message never sends anything back to it except the
    reply to a full sync, and every relay leaves it out.
   */
  lemma MessageNeverEchoed(r: Room, sender: ConnId, m: Incoming<ClientMessage>, now: int)
    ensures var out := OnMessage(r, sender, m, now).out;
            forall i | 0 <= i < |out| ::
              && (out[i].Send? ==> out[i].to == sender && out[i].msg.SyncAllReply?)
              && (out[i].Broadcast? ==> sender in out[i].without)
  {
    match m
    case Parsed(SyncAll(client, current)) =>
      var out := HandleSyncAll(r, sender, client, current, now).out;
      forall i | 0 <= i < |out|
        ensures out[i].Send? ==> out[i].to == sender && out[i].msg.SyncAllReply?
        ensures out[i].Broadcast? ==> sender in out[i].without
      {
        if i > 0 {
          assert out[i].without == {sender};
        }
      }
    case Parsed(Word(key, word, date)) =>
      var s := HandleNewWord(r, sender, key, word, date, now);
      assert s.out == [] || s.out == [Broadcast(NewWord(key, word), {sender})];
    case _ =>
  }

  /** A word message delivered twice has the effect of one delivery. */
  lemma NewWordIdempotent(r: Room, sender: ConnId, key: string, word: string, date: Option<string>, now: int, later: int)
    ensures var s := HandleNewWord(r, sender, key, word, date, now);
            HandleNewWord(s.room, sender, key, word, date, later) == Step(s.room, [])
  {
    var s := HandleNewWord(r, sender, key, word, date, now);
    if word !in WordsOf(r.puzzles, key) {
      assert WordsOf(s.room.puzzles, key) == WordsOf(r.puzzles, key) + [word];
    }
  }

  /**
    The language recorded for a word message is the text before the first
    `-` of the key: the two-letter code of a plain key, but also only the
    first half of a regional code such as `en-gb`.
   */
  lemma LangOfKeyIsFirstSegment(lang: string, rest: string)
    requires '-' !in lang && lang != ""
    ensures LangOfKey(lang + "-" + rest) == lang
  {
    Strings.SplitCons(lang, '-', rest);
    assert lang + "-" + rest == lang + ['-'] + rest;
  }

  /** A key with nothing before its first `-`, or an empty key, falls back to `en`. */
  lemma LangOfKeyFallback(rest: string)
    ensures LangOfKey("") == "en"
    ensures LangOfKey("-" + rest) == "en"
  {
    Strings.SplitCons("", '-', rest);
    assert "" + ['-'] + rest == "-" + rest;
  }

  lemma RegionalKeyLosesRegion()
    ensures LangOfKey("en-gb-2024-01-14") == "en"
  {
    var key := "en-gb-2024-01-14";
    assert key[..2] == "en" && key[2] == '-';
    assert key == key[..2] + "-" + key[3..];
    LangOfKeyIsFirstSegment("en", key[3..]);
  }
}
