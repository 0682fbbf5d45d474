/**
 * The tiddler folder and the handlers of tiddly.go that read and write it,
 * with HTTP taken away: the folder is a map from file name to record, and
 * every handler is a method whose contract ties its answer and the new map
 * to the specification functions of Tiddly and TiddlerList.
 */
module Store {
  import opened Wrappers
  import opened Json
  import opened Text
  import opened Tiddly
  import opened TiddlerList

  class TiddlerStore {
    /** The library calls the handlers make. */
    const platform: Platform
    /** The files of the tiddler folder that hold a readable record, by file name. */
    var records: map<Key, Tiddler>

    /** A store over a folder that already holds the given records. */
    constructor (platform: Platform, files: map<Key, Tiddler>)
      ensures this.platform == platform && records == files
    {
      this.platform := platform;
      records := files;
    }

    /**
     * putTiddler: decode the body into an object, force `bag`, number the
     * record one past the readable old one (or 1), keep a string `text` apart,
     * drop `text` from the metadata and overwrite the record.
     */
    method Put(title: string, body: string) returns (r: Result<string, Failure>)
      modifies this
      ensures var key := platform.fskey(title);
        match PutOutcome(platform, Read(old(records), key), body)
        case Success(t) => records == old(records)[key := t] && r == Success(Etag(platform, title, t.rev, body))
        case Failure(e) => records == old(records) && r == Failure(e)
      ensures Lawful(platform.json) && old(WellFormedStore(platform.json, records)) ==>
                WellFormedStore(platform.json, records)
    {
      var js: Fields;
      match Unmarshal(platform.json, body) {
        case ObjectValue(fields) => js := fields;
        case _ => return Failure(BodyNotObject);
      }
      ghost var sent := js;
      js := js["bag" := JStr(Bag)];

      var rev: Int64 := 1;
      var key := platform.fskey(title);
      if key in records {
        rev := Inc(records[key].rev);
      }
      js := js["revision" := JNum(rev as int)];

      var text := "";
      if "text" in js && js["text"].JStr? {
        text := js["text"].str;
      }
      js := js - {"text"};
      StoredFieldsInHandlerOrder(sent, rev);

      var t := Tiddler(rev, platform.json.serialize(JObj(js)), text);
      assert t == PutRecord(platform, Read(records, key), sent);
      records := records[key := t];
      r := Success(Etag(platform, title, rev, body));
      PutKeepsStoreWellFormed(platform, old(records), key, sent);
    }

    /** getTiddler: the stored metadata with `text` set to the stored text, encoded. */
    method Get(title: string) returns (r: Result<string, Failure>)
      ensures r == GetResponse(platform, Read(records, platform.fskey(title)))
    {
      var key := platform.fskey(title);
      if key !in records {
        return Failure(RecordUnreadable);
      }
      var t := records[key];
      var js: Fields;
      match Unmarshal(platform.json, t.meta) {
        case ObjectValue(fields) => js := fields;
        case _ => return Failure(MetaNotObject);
      }
      js := js["text" := JStr(t.text)];
      r := Success(platform.json.serialize(JObj(js)));
    }

    /** deleteTiddler: overwrite a readable record with its tombstone. */
    method Delete(title: string) returns (r: Outcome<Failure>)
      modifies this
      ensures var key := platform.fskey(title);
        match DeleteOutcome(Read(old(records), key))
        case Success(d) => records == old(records)[key := d] && r == Pass
        case Failure(e) => records == old(records) && r == Fail(e)
      ensures old(WellFormedStore(platform.json, records)) ==> WellFormedStore(platform.json, records)
    {
      var key := platform.fskey(title);
      if key !in records {
        return Fail(RecordUnreadable);
      }
      var t := records[key];
      t := t.(rev := Inc(t.rev), meta := "", text := "");
      records := records[key := t];
      r := Pass;
    }

    /**
     * tiddlerList: visit the files named by walk in order, skip the unreadable
     * and the deleted ones, inline the text of macros, and join the entries
     * into one JSON array. Like filepath.Walk, walk names every file of the
     * folder once, so every readable record is visited.
     */
    method List(walk: seq<Key>) returns (body: string)
      requires Covers(records, walk) && NoRepeats(walk)
      ensures body == Listing(ListItems(platform, records, walk))
      ensures ListsEveryLiveTiddler(platform, records, walk)
    {
      var buf := "[";
      var sep := "";
      for i := 0 to |walk|
        invariant buf == "[" + JoinComma(ListItems(platform, records, walk[..i]))
        invariant sep == if ListItems(platform, records, walk[..i]) == [] then "" else ","
      {
        ListItemsStep(platform, records, walk, i);
        var entry := ListEntry(platform, records, walk[i]);
        if entry.Some? {
          JoinCommaAppend(ListItems(platform, records, walk[..i]), entry.value);
        }
        buf, sep := Visit(walk[i], buf, sep);
      }
      assert walk[..|walk|] == walk;
      body := buf + "]";
      EveryLiveTiddlerListedOnce(platform, records, walk);
    }

    /**
     * The walk callback of tiddlerList for the file named key: skip an
     * unreadable record, a tombstone, and a macro whose metadata does not
     * decode; otherwise write the separator and the entry to the buffer.
     */
    method Visit(key: Key, buf: string, sep: string) returns (buf': string, sep': string)
      ensures match ListEntry(platform, records, key)
        case Some(item) => buf' == buf + sep + item && sep' == ","
        case None => buf' == buf && sep' == sep
    {
      buf', sep' := buf, sep;
      if key !in records {
        return;
      }
      var t := records[key];
      if |t.meta| == 0 {
        return;
      }
      var meta := t.meta;
      if Contains(meta, MacroMarker) {
        match Unmarshal(platform.json, meta) {
          case ObjectValue(js) =>
            js := js["text" := JStr(t.text)];
            meta := platform.json.serialize(JObj(js));
          case _ =>
            return;
        }
      }
      buf' := buf + sep + meta;
      sep' := ",";
    }
  }

  /** Joining one more item adds a comma before it unless it is the first. */
  lemma JoinCommaAppend(items: seq<string>, item: string)
    ensures JoinComma(items + [item]) == JoinComma(items) + (if items == [] then "" else ",") + item
  {
    assert (items + [item])[..|items|] == items;
  }

  /** putTiddler's order of edits (force `bag`, set `revision`, drop `text`) gives StoredFields. */
  lemma StoredFieldsInHandlerOrder(body: Fields, rev: Int64)
    ensures (body["bag" := JStr(Bag)]["revision" := JNum(rev as int)] - {"text"}) == StoredFields(body, rev)
  {
    var edited := body["bag" := JStr(Bag)]["revision" := JNum(rev as int)] - {"text"};
    assert edited.Keys == StoredFields(body, rev).Keys;
  }

  /** A put keeps every record of a well-formed store well-formed. */
  lemma PutKeepsStoreWellFormed(p: Platform, records: map<Key, Tiddler>, key: Key, body: Fields)
    ensures Lawful(p.json) && WellFormedStore(p.json, records) ==>
              WellFormedStore(p.json, records[key := PutRecord(p, Read(records, key), body)])
  {
    if Lawful(p.json) && WellFormedStore(p.json, records) {
      PutWritesWellFormed(p, Read(records, key), body);
    }
  }

  /** Visiting one more file of the walk adds that file's entry, if any, to the listing. */
  lemma ListItemsStep(p: Platform, records: map<Key, Tiddler>, walk: seq<Key>, i: nat)
    requires i < |walk|
    ensures ListItems(p, records, walk[..i + 1]) ==
              match ListEntry(p, records, walk[i])
              case Some(item) => ListItems(p, records, walk[..i]) + [item]
              case None => ListItems(p, records, walk[..i])
  {
    assert walk[..i + 1][..i] == walk[..i];
  }
}
