/**
 * tiddlerList: one pass over the files of the tiddler folder that emits the
 * metadata of every live tiddler as one JSON array, with the text of macro
 * tiddlers inlined.
 */
module TiddlerList {
  import opened Wrappers
  import opened Json
  import opened Text
  import opened Tiddly

  /** A macro tiddler: its raw metadata contains the marker. */
  predicate IsMacro(meta: string)
  {
    Contains(meta, MacroMarker)
  }

  /** What the walk callback emits for the file named key, or None when it skips the file. */
  function ListEntry(p: Platform, records: map<Key, Tiddler>, key: Key): Option<string>
  {
    if key !in records then None                  // fsget failed
    else
      var t := records[key];
      if |t.meta| == 0 then None                  // a tombstone
      else if !IsMacro(t.meta) then Some(t.meta)
      else
        match Unmarshal(p.json, t.meta)
        case ObjectValue(js) => Some(p.json.serialize(JObj(js["text" := JStr(t.text)])))
        case _ => None
  }

  /** The entries of a walk over the files named by walk, in walk order. */
  function ListItems(p: Platform, records: map<Key, Tiddler>, walk: seq<Key>): seq<string>
    decreases |walk|
  {
    if walk == [] then []
    else
      var items := ListItems(p, records, walk[..|walk| - 1]);
      match ListEntry(p, records, walk[|walk| - 1])
      case Some(item) => items + [item]
      case None => items
  }

  /** The body tiddlerList writes: the entries between brackets, separated by commas. */
  function Listing(items: seq<string>): string
  {
    "[" + JoinComma(items) + "]"
  }

  /** The walk with every visit of key dropped. */
  function Without(walk: seq<Key>, key: Key): (rest: seq<Key>)
    ensures forall k :: k in rest <==> k in walk && k != key
    decreases |walk|
  {
    if walk == [] then []
    else Without(walk[..|walk| - 1], key) + (if walk[|walk| - 1] == key then [] else [walk[|walk| - 1]])
  }

  // ---------------------------------------------------------------- filtering

  /**
   * An item is listed exactly when some visited file yields it: a readable
   * record with non-empty metadata, decodable when it is a macro.
   */
  lemma {:induction false} ListedIff(p: Platform, records: map<Key, Tiddler>, walk: seq<Key>, item: string)
    ensures item in ListItems(p, records, walk) <==>
              exists i :: 0 <= i < |walk| && ListEntry(p, records, walk[i]) == Some(item)
    decreases |walk|
  {
    if walk != [] {
      var init := walk[..|walk| - 1];
      ListedIff(p, records, init, item);
      if exists i :: 0 <= i < |walk| && ListEntry(p, records, walk[i]) == Some(item) {
        var i :| 0 <= i < |walk| && ListEntry(p, records, walk[i]) == Some(item);
        if i < |walk| - 1 {
          assert init[i] == walk[i];
        }
      }
      if exists i :: 0 <= i < |init| && ListEntry(p, records, init[i]) == Some(item) {
        var i :| 0 <= i < |init| && ListEntry(p, records, init[i]) == Some(item);
        assert walk[i] == init[i];
      }
    }
  }

  /** A file yields an entry exactly when it holds a readable, non-empty record (decodable if a macro). */
  lemma EntryVisible(p: Platform, records: map<Key, Tiddler>, key: Key)
    ensures ListEntry(p, records, key).Some? <==>
              && key in records
              && records[key].meta != ""
              && (IsMacro(records[key].meta) ==> Unmarshal(p.json, records[key].meta).ObjectValue?)
  {
  }

  /** A walk that reaches no live record lists nothing, and the body is `[]`. */
  lemma {:induction false} NothingLiveListsEmpty(p: Platform, records: map<Key, Tiddler>, walk: seq<Key>)
    requires forall k :: k in walk && k in records ==> records[k].meta == ""
    ensures ListItems(p, records, walk) == []
    ensures Listing(ListItems(p, records, walk)) == "[]"
    decreases |walk|
  {
    if walk != [] {
      assert walk[|walk| - 1] in walk;
      assert forall k :: k in walk[..|walk| - 1] ==> k in walk;
      NothingLiveListsEmpty(p, records, walk[..|walk| - 1]);
    }
  }

  /**
   * Deleting a tiddler hides it: the listing after the tombstone is the
   * listing before it with the deleted file's visits dropped.
   */
  lemma {:induction false} DeleteHidesFromListing(p: Platform, records: map<Key, Tiddler>, key: Key, walk: seq<Key>)
    requires key in records
    ensures ListItems(p, records[key := Tombstone(records[key])], walk) == ListItems(p, records, Without(walk, key))
    decreases |walk|
  {
    if walk != [] {
      var init, last := walk[..|walk| - 1], walk[|walk| - 1];
      DeleteHidesFromListing(p, records, key, init);
      var after := records[key := Tombstone(records[key])];
      if last == key {
        assert ListEntry(p, after, last) == None;
        assert Without(walk, key) == Without(init, key);
      } else {
        assert ListEntry(p, after, last) == ListEntry(p, records, last);
        var w := Without(walk, key);
        assert w == Without(init, key) + [last];
        assert w[..|w| - 1] == Without(init, key);
      }
    }
  }

  // ---------------------------------------------------------------- coverage

  /** A walk that visits no file twice, as filepath.Walk does. */
  predicate NoRepeats(walk: seq<Key>)
    decreases |walk|
  {
    walk == [] || (walk[|walk| - 1] !in walk[..|walk| - 1] && NoRepeats(walk[..|walk| - 1]))
  }

  /** A walk that reaches the file of every readable record. */
  predicate Covers(records: map<Key, Tiddler>, walk: seq<Key>)
  {
    forall k :: k in records ==> k in walk
  }

  /** Every readable record that yields an entry has that entry in the listing of walk. */
  ghost predicate ListsEveryLiveTiddler(p: Platform, records: map<Key, Tiddler>, walk: seq<Key>)
  {
    forall k :: k in records && ListEntry(p, records, k).Some? ==>
      ListEntry(p, records, k).value in ListItems(p, records, walk)
  }

  /** The files of a walk that yield an entry, in walk order. */
  function ListedKeys(p: Platform, records: map<Key, Tiddler>, walk: seq<Key>): seq<Key>
    decreases |walk|
  {
    if walk == [] then []
    else
      var keys := ListedKeys(p, records, walk[..|walk| - 1]);
      if ListEntry(p, records, walk[|walk| - 1]).Some? then keys + [walk[|walk| - 1]] else keys
  }

  /**
   * The entries of a walk are the entries of its listed files, one each; the
   * listed files are the visited files that yield an entry, and a walk that
   * visits no file twice lists no file twice.
   */
  lemma {:induction false} ListedKeysMatchItems(p: Platform, records: map<Key, Tiddler>, walk: seq<Key>)
    ensures var keys := ListedKeys(p, records, walk);
      var items := ListItems(p, records, walk);
      && |items| == |keys|
      && (forall i :: 0 <= i < |keys| ==> ListEntry(p, records, keys[i]) == Some(items[i]))
      && (forall k :: k in keys <==> k in walk && ListEntry(p, records, k).Some?)
      && (NoRepeats(walk) ==> NoRepeats(keys))
    decreases |walk|
  {
    if walk != [] {
      var init, last := walk[..|walk| - 1], walk[|walk| - 1];
      ListedKeysMatchItems(p, records, init);
      assert forall k :: k in walk <==> k in init || k == last;
      var keys := ListedKeys(p, records, init);
      if NoRepeats(walk) && ListEntry(p, records, last).Some? {
        assert ListedKeys(p, records, walk)[..|keys|] == keys;
      }
    }
  }

  /**
   * A walk over the whole folder that visits each file once lists every
   * live tiddler exactly once: the listed files are the readable records
   * that yield an entry, none repeated.
   */
  lemma EveryLiveTiddlerListedOnce(p: Platform, records: map<Key, Tiddler>, walk: seq<Key>)
    requires Covers(records, walk) && NoRepeats(walk)
    ensures var keys := ListedKeys(p, records, walk);
      && NoRepeats(keys)
      && (forall k :: k in keys <==> k in records && ListEntry(p, records, k).Some?)
      && ListsEveryLiveTiddler(p, records, walk)
  {
    var keys := ListedKeys(p, records, walk);
    ListedKeysMatchItems(p, records, walk);
    forall k | k in records && ListEntry(p, records, k).Some?
      ensures ListEntry(p, records, k).value in ListItems(p, records, walk)
    {
      var i :| 0 <= i < |keys| && keys[i] == k;
    }
  }

  // ---------------------------------------------------------------- output

  /** The metadata of a record as put writes it: empty (a tombstone) or an encoded object without `text`. */
  predicate WellFormedMeta(c: Codec, meta: string)
  {
    meta == "" ||
    match c.parse(meta)
    case Some(JObj(m)) => "text" !in m && c.serialize(JObj(m)) == meta
    case _ => false
  }

  /** Every record of the store is as put or delete writes it. */
  ghost predicate WellFormedStore(c: Codec, records: map<Key, Tiddler>)
  {
    forall k :: k in records ==> WellFormedMeta(c, records[k].meta)
  }

  /** put writes well-formed metadata. */
  lemma PutWritesWellFormed(p: Platform, prior: Option<Tiddler>, body: Fields)
    requires Lawful(p.json)
    ensures WellFormedMeta(p.json, PutRecord(p, prior, body).meta)
  {
  }

  /** The object a live record is listed as, or None when it is skipped. */
  function ListedObject(p: Platform, records: map<Key, Tiddler>, key: Key): Option<Json>
  {
    if key !in records || records[key].meta == "" then None
    else
      var t := records[key];
      match Unmarshal(p.json, t.meta)
      case ObjectValue(js) => Some(JObj(if IsMacro(t.meta) then js["text" := JStr(t.text)] else js))
      case _ => None
  }

  /** The objects of a walk over a store, in walk order. */
  function ListedObjects(p: Platform, records: map<Key, Tiddler>, walk: seq<Key>): seq<Json>
    decreases |walk|
  {
    if walk == [] then []
    else
      var objects := ListedObjects(p, records, walk[..|walk| - 1]);
      match ListedObject(p, records, walk[|walk| - 1])
      case Some(o) => objects + [o]
      case None => objects
  }

  /**
   * In a well-formed store a listed macro tiddler carries its text under
   * `text`; any other listed tiddler carries no `text` at all.
   */
  lemma ListedText(p: Platform, records: map<Key, Tiddler>, key: Key)
    requires WellFormedStore(p.json, records)
    requires ListedObject(p, records, key).Some?
    ensures var o := ListedObject(p, records, key).value;
      && o.JObj?
      && ("text" in o.fields <==> IsMacro(records[key].meta))
      && ("text" in o.fields ==> o.fields["text"] == JStr(records[key].text))
  {
    assert WellFormedMeta(p.json, records[key].meta);
  }

  /** Each entry of a well-formed store is the encoding of the object it is listed as. */
  lemma EntryEncodesObject(p: Platform, records: map<Key, Tiddler>, key: Key)
    requires Lawful(p.json) && WellFormedStore(p.json, records)
    ensures ListEntry(p, records, key).Some? <==> ListedObject(p, records, key).Some?
    ensures ListEntry(p, records, key).Some? ==>
              ListEntry(p, records, key).value == p.json.serialize(ListedObject(p, records, key).value)
  {
    if key in records {
      assert WellFormedMeta(p.json, records[key].meta);
    }
  }

  lemma {:induction false} ItemsEncodeObjects(p: Platform, records: map<Key, Tiddler>, walk: seq<Key>)
    requires Lawful(p.json) && WellFormedStore(p.json, records)
    ensures ListItems(p, records, walk) == SerializeAll(p.json, ListedObjects(p, records, walk))
    decreases |walk|
  {
    if walk != [] {
      var init, last := walk[..|walk| - 1], walk[|walk| - 1];
      ItemsEncodeObjects(p, records, init);
      EntryEncodesObject(p, records, last);
    }
  }

  /**
   * The body tiddlerList writes for a well-formed store is a JSON array:
   * it decodes to the listed objects, in walk order.
   */
  lemma ListingIsJsonArray(p: Platform, records: map<Key, Tiddler>, walk: seq<Key>)
    requires Lawful(p.json) && WellFormedStore(p.json, records)
    ensures p.json.parse(Listing(ListItems(p, records, walk))) == Some(JArr(ListedObjects(p, records, walk)))
  {
    var objects := ListedObjects(p, records, walk);
    ItemsEncodeObjects(p, records, walk);
    assert p.json.serialize(JArr(objects)) == "[" + JoinComma(SerializeAll(p.json, objects)) + "]";
  }

  /**
   * A macro's metadata never decodes to `null`, so the listing never meets
   * the nil map that json.Unmarshal leaves for `null`.
   */
  lemma MacroNeverNull(c: Codec, meta: string)
    requires Lawful(c) && IsMacro(meta)
    ensures Unmarshal(c, meta) != NilMap
  {
    assert MacroMarker[0] == '"';
    ContainsCharacters(meta, MacroMarker, '"');
  }
}
