/**
  The device's local storage as the sync session sees it. Each stored string
  is represented by what `JSON.parse` makes of it: nothing usable (an absent
  or empty value), text that is not JSON, a JSON array (of words), or some
  other JSON value.
 */
module LocalStore {
  import opened Seqs
  import opened Strings
  import opened OrderedMap
  import opened Protocol
  import SyncKeys

  datatype Entry = Blank | Corrupt | WordArray(words: seq<string>) | OtherJson

  /** Key/value pairs in the order `localStorage.key(i)` lists them. */
  type Store = s: OMap<string, Entry> | s.Valid() witness OMap([], map[])

  function StorageKey(puzzleKey: string): (key: string)
    ensures StartsWith(key, SyncKeys.StoragePrefix)
    ensures key[|SyncKeys.StoragePrefix|..] == puzzleKey
  {
    SyncKeys.StoragePrefix + puzzleKey
  }

  /** `getPuzzleFromLocal`: the stored array, or `[]` when absent, empty, unparseable or not an array. */
  function GetPuzzleFromLocal(store: Store, puzzleKey: string): (words: seq<string>)
    ensures Get(store, StorageKey(puzzleKey)).Some? && Get(store, StorageKey(puzzleKey)).value.WordArray?
            ==> words == Get(store, StorageKey(puzzleKey)).value.words
    ensures !(Get(store, StorageKey(puzzleKey)).Some? && Get(store, StorageKey(puzzleKey)).value.WordArray?)
            ==> words == []
  {
    var e := Get(store, StorageKey(puzzleKey));
    if e.Some? && e.value.WordArray? then e.value.words else []
  }

  /** `savePuzzleToLocal`: store the list as a JSON array under the prefixed key. */
  function SavePuzzleToLocal(store: Store, puzzleKey: string, words: seq<string>): (r: Store)
    ensures r.values == store.values[StorageKey(puzzleKey) := WordArray(words)]
  {
    Put(store, StorageKey(puzzleKey), WordArray(words))
  }

  /** Saving then reading gives back the list; other puzzles are not affected. */
  lemma SaveThenGet(store: Store, puzzleKey: string, words: seq<string>, other: string)
    ensures GetPuzzleFromLocal(SavePuzzleToLocal(store, puzzleKey, words), puzzleKey) == words
    ensures other != puzzleKey ==>
      GetPuzzleFromLocal(SavePuzzleToLocal(store, puzzleKey, words), other) == GetPuzzleFromLocal(store, other)
  {
    if other != puzzleKey {
      assert StorageKey(other)[|SyncKeys.StoragePrefix|..] != StorageKey(puzzleKey)[|SyncKeys.StoragePrefix|..];
    }
  }

  /** A storage key `getAllLocalPuzzles` collects, given its entry. */
  predicate Collected(key: string, e: Entry) {
    && StartsWith(key, SyncKeys.StoragePrefix)
    && !Contains(key, SyncKeys.IncorrectMarker)
    && e.WordArray? && |e.words| > 0
  }

  /** The loop of `getAllLocalPuzzles` over the storage keys `keys`. */
  function CollectPuzzles(store: Store, keys: seq<string>, acc: Puzzles): (r: Puzzles)
    requires forall k | k in keys :: k in store.values
    decreases |keys|
  {
    if |keys| == 0 then acc
    else
      var key := keys[0];
      var acc' :=
        if Collected(key, store.values[key])
        then Put(acc, key[|SyncKeys.StoragePrefix|..], store.values[key].words)
        else acc;
      CollectPuzzles(store, keys[1..], acc')
  }

  /** `getAllLocalPuzzles`. */
  function GetAllLocalPuzzles(store: Store): (r: Puzzles) {
    assert forall k | k in store.keys :: k in Elems(store.keys);
    CollectPuzzles(store, store.keys, Empty())
  }

  lemma {:induction false} CollectPuzzlesAt(store: Store, keys: seq<string>, acc: Puzzles, pk: string)
    requires forall k | k in keys :: k in store.values
    ensures var key := StorageKey(pk);
            Get(CollectPuzzles(store, keys, acc), pk)
            == if key in keys && Collected(key, store.values[key]) then Some(store.values[key].words)
               else Get(acc, pk)
    decreases |keys|
  {
    if |keys| > 0 {
      var key := keys[0];
      InHeadOrTail(keys, StorageKey(pk));
      var acc' :=
        if Collected(key, store.values[key])
        then Put(acc, key[|SyncKeys.StoragePrefix|..], store.values[key].words)
        else acc;
      CollectPuzzlesAt(store, keys[1..], acc', pk);
      if Collected(key, store.values[key]) {
        assert key == StorageKey(key[|SyncKeys.StoragePrefix|..]);
      }
    }
  }

  /**
    `getAllLocalPuzzles` yields, under the key without its prefix, exactly the
    non-empty arrays stored under prefixed keys that do not contain the
    incorrect-guess marker. It does not check the date pattern.
   */
  lemma GetAllLocalPuzzlesSpec(store: Store, pk: string)
    ensures var key := StorageKey(pk);
            Get(GetAllLocalPuzzles(store), pk)
            == if key in store.values && Collected(key, store.values[key]) then Some(store.values[key].words)
               else None
  {
    assert forall k | k in store.keys :: k in Elems(store.keys);
    CollectPuzzlesAt(store, store.keys, Empty(), pk);
  }

  /** A non-empty array under a key that is not a dated puzzle key is still sent. */
  lemma CollectsUndatedKeys()
    ensures !SyncKeys.IsValidPuzzleKey(UndatedKey)
    ensures Get(GetAllLocalPuzzles(OMap([UndatedKey], map[UndatedKey := WordArray(["x"])])), "popularity-queue")
            == Some(["x"])
  {
    var store: Store := OMap([UndatedKey], map[UndatedKey := WordArray(["x"])]);
    assert StorageKey("popularity-queue") == UndatedKey;
    assert UndatedKey[..|SyncKeys.StoragePrefix|] == SyncKeys.StoragePrefix;
    assert SyncKeys.IncorrectMarker[3] == 'c';
    MissingCharNotContained(UndatedKey, SyncKeys.IncorrectMarker, 'c');
    GetAllLocalPuzzlesSpec(store, "popularity-queue");
    UndatedKeyInvalid();
  }

  lemma UndatedKeyInvalid()
    ensures !SyncKeys.IsValidPuzzleKey(UndatedKey)
  {
    var rest := UndatedKey[|SyncKeys.StoragePrefix|..];
    assert rest == "popularity-queue";
    assert rest[..5][2] == 'p';
  }

  /** The key under which the popularity queue is kept. */
  const UndatedKey: string := SyncKeys.StoragePrefix + "popularity-queue"

  /** A string cannot contain a text that has a character it lacks. */
  lemma MissingCharNotContained(s: string, t: string, c: char)
    requires c in t && c !in s
    ensures !Contains(s, t)
  {
    ContainsOccurs(s, t);
  }
}
