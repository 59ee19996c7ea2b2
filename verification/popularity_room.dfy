/**
  The popularity room: one per puzzle day, named `{lang}-{date}`. Its storage
  holds `players` (how many people have found a first word) and one
  `count:{hash}` entry per word. On first access it may import counts from the
  HTTP API; after that it counts submissions and broadcasts each new count.
 */
module PopularityRoom {
  import opened Seqs
  import opened Strings
  import opened OrderedMap
  import opened Protocol
  import SyncKeys

  const CountPrefix: string := "count:"
  const PlayersKey: string := "players"

  /** Numeric storage entries (and the counts of an `init` message), in key order. */
  type Table = t: OMap<string, int> | t.Valid() witness OMap([], map[])

  /**
    `seeded` is the one boolean storage entry; it is kept apart from the
    numeric ones, which it never interferes with (the snapshot skips it).
   */
  datatype Room = Room(id: string, seeded: bool, storage: Table)

  type ConnId = string

  datatype Submission = Submission(wordHash: string, isFirstWord: bool)

  /** The body of an `init` message. */
  datatype InitData = InitData(counts: Table, totalPlayers: int)

  datatype ServerMessage =
    | Init(init: InitData)
    | Update(wordHash: string, count: int, totalPlayers: int)

  datatype Outbound = Send(to: ConnId, msg: ServerMessage) | Broadcast(msg: ServerMessage)

  datatype Step = Step(room: Room, out: seq<Outbound>)

  function CountKey(hash: string): (k: string)
    ensures k != PlayersKey
    ensures StartsWith(k, CountPrefix) && k[|CountPrefix|..] == hash
  {
    assert (CountPrefix + hash)[0] == 'c';
    CountPrefix + hash
  }

  /** `(value as number) || 0` for a stored number that may be missing. */
  function NumberOr0(v: Option<int>): int {
    if v.Some? then v.value else 0
  }

  /** `handleWordSubmission`: one more finder of the word, and one more player on a first word. */
  function HandleWordSubmission(r: Room, s: Submission): (st: Step)
    ensures st.room.id == r.id && st.room.seeded == r.seeded
  {
    var key := CountKey(s.wordHash);
    var count := NumberOr0(Get(r.storage, key)) + 1;
    var players := NumberOr0(Get(r.storage, PlayersKey)) + (if s.isFirstWord then 1 else 0);
    var withCount := Put(r.storage, key, count);
    var updated := if s.isFirstWord then Put(withCount, PlayersKey, players) else withCount;
    Step(r.(storage := updated), [Broadcast(Update(s.wordHash, count, players))])
  }

  /**
    A submission raises that word's count by one, raises `players` by one
    exactly on a first word, leaves every other entry alone, and broadcasts
    the stored count and player total.
   */
  lemma SubmissionEffect(r: Room, s: Submission, k: string)
    ensures var after := HandleWordSubmission(r, s).room.storage;
            && Get(after, CountKey(s.wordHash)) == Some(NumberOr0(Get(r.storage, CountKey(s.wordHash))) + 1)
            && (s.isFirstWord ==> Get(after, PlayersKey) == Some(NumberOr0(Get(r.storage, PlayersKey)) + 1))
            && (!s.isFirstWord ==> Get(after, PlayersKey) == Get(r.storage, PlayersKey))
            && (k != CountKey(s.wordHash) && k != PlayersKey ==> Get(after, k) == Get(r.storage, k))
            && HandleWordSubmission(r, s).out
               == [Broadcast(Update(s.wordHash, Get(after, CountKey(s.wordHash)).value, NumberOr0(Get(after, PlayersKey))))]
  {
  }

  /** The `init` message: every `count:` entry under its hash, and `players` (0 when absent). */
  function ScanItems(storage: Table, keys: seq<string>, acc: InitData): (m: InitData)
    requires forall k | k in keys :: k in storage.values
    decreases |keys|
  {
    if |keys| == 0 then acc
    else
      var k := keys[0];
      var v := storage.values[k];
      var acc' :=
        if k == PlayersKey then acc.(totalPlayers := v)
        else if StartsWith(k, CountPrefix) then acc.(counts := Put(acc.counts, k[|CountPrefix|..], v))
        else acc;
      ScanItems(storage, keys[1..], acc')
  }

  function Snapshot(storage: Table): (m: InitData) {
    assert forall k | k in storage.keys :: k in Elems(storage.keys);
    ScanItems(storage, storage.keys, InitData(Empty(), 0))
  }

  lemma {:induction false} ScanItemsAt(storage: Table, keys: seq<string>, acc: InitData, hash: string)
    requires forall k | k in keys :: k in storage.values
    requires NoDup(keys)
    ensures var m := ScanItems(storage, keys, acc);
            && Get(m.counts, hash)
               == (if CountKey(hash) in keys then Some(storage.values[CountKey(hash)]) else Get(acc.counts, hash))
            && m.totalPlayers
               == (if PlayersKey in keys then storage.values[PlayersKey] else acc.totalPlayers)
    decreases |keys|
  {
    if |keys| > 0 {
      var k := keys[0];
      var v := storage.values[k];
      var acc' :=
        if k == PlayersKey then acc.(totalPlayers := v)
        else if StartsWith(k, CountPrefix) then acc.(counts := Put(acc.counts, k[|CountPrefix|..], v))
        else acc;
      InHeadOrTail(keys, CountKey(hash));
      InHeadOrTail(keys, PlayersKey);
      assert k !in keys[1..];
      ScanItemsAt(storage, keys[1..], acc', hash);
      if k != PlayersKey && StartsWith(k, CountPrefix) {
        assert k == CountKey(k[|CountPrefix|..]);
      }
    }
  }

  /**
    The snapshot maps each hash to the count stored for it, has no other
    hashes, and reports the stored player total or 0.
   */
  lemma SnapshotSpec(storage: Table, hash: string)
    ensures Get(Snapshot(storage).counts, hash) == Get(storage, CountKey(hash))
    ensures Snapshot(storage).totalPlayers == NumberOr0(Get(storage, PlayersKey))
  {
    assert forall k | k in storage.keys :: k in Elems(storage.keys);
    ScanItemsAt(storage, storage.keys, InitData(Empty(), 0), hash);
  }

  /** What the HTTP API answered: nothing usable, or counts and a player total. */
  datatype Fetched = FetchFailed | Fetched(counts: Table, totalPlayers: int)

  /** The API request the room makes, for the language and date in its name. */
  datatype ApiRequest = ApiRequest(lang: string, date: string)

  datatype Seeding = Seeding(room: Room, request: Option<ApiRequest>)

  /** The room name splits into a language code and a date. */
  function ParseRoomId(id: string): (p: Option<ApiRequest>)
    ensures p.Some? <==> SyncKeys.MatchesDateKey(id)
    ensures p.Some? ==>
      && id == p.value.lang + "-" + p.value.date
      && SyncKeys.IsLangCode(p.value.lang) && SyncKeys.IsDateShape(p.value.date)
  {
    if SyncKeys.MatchesDateKey(id) then
      var n := |id| - 11;
      assert id == id[..n] + "-" + id[n + 1..];
      Some(ApiRequest(id[..n], id[n + 1..]))
    else None
  }

  /** Write the fetched `count:` entries, in the fetched order. */
  function PutCounts(storage: Table, counts: Table, hashes: seq<string>): (r: Table)
    requires forall h | h in hashes :: h in counts.values
    decreases |hashes|
  {
    if |hashes| == 0 then storage
    else PutCounts(Put(storage, CountKey(hashes[0]), counts.values[hashes[0]]), counts, hashes[1..])
  }

  lemma {:induction false} PutCountsAt(storage: Table, counts: Table, hashes: seq<string>, k: string)
    requires forall h | h in hashes :: h in counts.values
    ensures Get(PutCounts(storage, counts, hashes), k)
            == if StartsWith(k, CountPrefix) && k[|CountPrefix|..] in hashes
               then Some(counts.values[k[|CountPrefix|..]]) else Get(storage, k)
    decreases |hashes|
  {
    if |hashes| > 0 {
      var h := hashes[0];
      PutCountsAt(Put(storage, CountKey(h), counts.values[h]), counts, hashes[1..], k);
      if StartsWith(k, CountPrefix) {
        InHeadOrTail(hashes, k[|CountPrefix|..]);
        if k[|CountPrefix|..] == h {
          assert k == CountKey(h);
        }
      }
    }
  }

  /** `storage.put(entries)`: `players` first, then one `count:` entry per fetched hash. */
  function SeedEntries(storage: Table, f: Fetched): (r: Table)
    requires f.Fetched?
  {
    assert forall h | h in f.counts.keys :: h in Elems(f.counts.keys);
    PutCounts(Put(storage, PlayersKey, f.totalPlayers), f.counts, f.counts.keys)
  }

  /**
    `maybeSeedFromAPI`: on the first access only, mark the room seeded and,
    when it has no players yet and its name parses, ask the API; import the
    answer when it reports players.
   */
  function MaybeSeed(r: Room, f: Fetched): (s: Seeding)
    ensures s.room.seeded
    ensures s.room.id == r.id
    ensures s.request.Some? <==> !r.seeded && !(NumberOr0(Get(r.storage, PlayersKey)) > 0) && SyncKeys.MatchesDateKey(r.id)
    ensures s.request.Some? ==> s.request == ParseRoomId(r.id)
  {
    if r.seeded then Seeding(r, None)
    else
      var marked := r.(seeded := true);
      if NumberOr0(Get(r.storage, PlayersKey)) > 0 then Seeding(marked, None)
      else
        match ParseRoomId(r.id)
        case None => Seeding(marked, None)
        case Some(req) =>
          var storage := if f.Fetched? && f.totalPlayers > 0 then SeedEntries(r.storage, f) else r.storage;
          Seeding(marked.(storage := storage), Some(req))
  }

  /** Seeding runs at most once: a seeded room is left exactly as it is, without a request. */
  lemma SeedsAtMostOnce(r: Room, f1: Fetched, f2: Fetched)
    ensures var once := MaybeSeed(r, f1).room;
            MaybeSeed(once, f2) == Seeding(once, None)
  {
  }

  /** Stored entries change only on a first access with no players, a parsable name and a positive answer. */
  lemma SeedGating(r: Room, f: Fetched)
    ensures MaybeSeed(r, f).room.storage != r.storage ==>
      && !r.seeded && !(NumberOr0(Get(r.storage, PlayersKey)) > 0) && SyncKeys.MatchesDateKey(r.id)
      && f.Fetched? && f.totalPlayers > 0
  {
  }

  /** An import stores the fetched player total and every fetched count under its `count:` key. */
  lemma SeedContents(r: Room, f: Fetched, hash: string)
    requires !r.seeded && !(NumberOr0(Get(r.storage, PlayersKey)) > 0) && SyncKeys.MatchesDateKey(r.id)
    requires f.Fetched? && f.totalPlayers > 0
    ensures var after := MaybeSeed(r, f).room.storage;
            && Get(after, PlayersKey) == Some(f.totalPlayers)
            && Get(after, CountKey(hash))
               == if hash in f.counts.values then Some(f.counts.values[hash]) else Get(r.storage, CountKey(hash))
  {
    assert forall h | h in f.counts.keys :: h in Elems(f.counts.keys);
    var base := Put(r.storage, PlayersKey, f.totalPlayers);
    PutCountsAt(base, f.counts, f.counts.keys, PlayersKey);
    PutCountsAt(base, f.counts, f.counts.keys, CountKey(hash));
    assert !StartsWith(PlayersKey, CountPrefix) by {
      assert PlayersKey[0] != CountPrefix[0];
    }
  }

  /** `onConnect`: maybe seed, then send the newcomer a snapshot of the stored counts. */
  function OnConnect(r: Room, conn: ConnId, f: Fetched): (st: Step)
    ensures st.room == MaybeSeed(r, f).room
    ensures st.out == [Send(conn, Init(Snapshot(st.room.storage)))]
  {
    var seeded := MaybeSeed(r, f).room;
    Step(seeded, [Send(conn, Init(Snapshot(seeded.storage)))])
  }

  /** `onMessage`: a word submission is counted; anything else is ignored. */
  function OnMessage(r: Room, frame: Incoming<Submission>): (st: Step)
    ensures !frame.Parsed? ==> st == Step(r, [])
    ensures frame.Parsed? ==> st == HandleWordSubmission(r, frame.msg)
  {
    if frame.Parsed? then HandleWordSubmission(r, frame.msg) else Step(r, [])
  }

  datatype Response = Response(status: int, body: string)

  datatype Reply = Reply(step: Step, response: Response)

  /** `onRequest`: the HTTP fallback for queued submissions. */
  function OnRequest(r: Room, verb: string, body: Incoming<Submission>): (rep: Reply)
  {
    if verb != "POST" then Reply(Step(r, []), Response(405, "Method not allowed"))
    else
      match body
      case Unparseable => Reply(Step(r, []), Response(400, "Invalid request body"))
      case Unrecognised => Reply(Step(r, []), Response(400, "Invalid message type"))
      case Parsed(s) => Reply(HandleWordSubmission(r, s), Response(200, "{\"success\":true}"))
  }

  /**
    A POSTed submission succeeds and counts exactly like one sent over the
    socket; every other request is refused with 405 or 400 and changes nothing.
   */
  lemma RequestStatus(r: Room, verb: string, body: Incoming<Submission>)
    ensures var rep := OnRequest(r, verb, body);
            && (verb != "POST" ==> rep.response.status == 405)
            && (verb == "POST" && !body.Parsed? ==> rep.response.status == 400)
            && (rep.response.status == 200 <==> verb == "POST" && body.Parsed?)
            && (rep.response.status == 200 ==> rep.step == OnMessage(r, body))
            && (rep.response.status != 200 ==> rep.step == Step(r, []))
  {
  }
}
