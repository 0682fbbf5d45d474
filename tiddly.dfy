/**
 * The tiddler record and what the handlers of tiddly.go do to one record:
 * the revision rule and the metadata/text split of putTiddler, the merge of
 * getTiddler, the tombstone of deleteTiddler and the Etag putTiddler answers.
 */
module Tiddly {
  import opened Wrappers
  import opened Json
  import opened Text

  /** The name of a record's file in the tiddler folder. */
  type Key = string

  const MinInt64: int := -0x8000_0000_0000_0000
  const MaxInt64: int := 0x7fff_ffff_ffff_ffff

  /** Go's `int` on a 64-bit platform. */
  newtype Int64 = x: int | -0x8000_0000_0000_0000 <= x < 0x8000_0000_0000_0000

  /** The record stored in a tiddler's file. */
  datatype Tiddler = Tiddler(rev: Int64, meta: string, text: string)

  /** The library calls the handlers make and the model does not open. */
  datatype Platform = Platform(
    json: Codec,                    // encoding/json
    fskey: string -> Key,           // SHA-256 of the title, URL-safe base64
    queryEscape: string -> string,  // url.QueryEscape
    md5Hex: string -> string)       // the %x rendering of md5.Sum of the raw body

  /** Why a handler answers with an error instead of doing its work. */
  datatype Failure =
    | BodyNotObject      // putTiddler: the body does not decode into a JSON object
    | RecordUnreadable   // fsget failed: no file for the key, or a file that is not a record
    | MetaNotObject      // getTiddler: the stored Meta does not decode into a JSON object

  /** The bag name putTiddler writes into every record. */
  const Bag: string := "bag"

  /** The marker tiddlerList looks for in the raw metadata of a macro tiddler. */
  const MacroMarker: string := "\"$:/tags/Macro\""

  /** fsget: the record stored under key, if there is a readable one. */
  function Read(records: map<Key, Tiddler>, key: Key): Option<Tiddler>
  {
    if key in records then Some(records[key]) else None
  }

  /** `r + 1` on a Go int: wraps from the largest value to the smallest. */
  function Inc(r: Int64): Int64
  {
    if r as int == MaxInt64 then MinInt64 as Int64 else r + 1
  }

  /** The number of values of a Go int. */
  const Two64: int := 0x1_0000_0000_0000_0000

  /** x brought into Go's int range, as 64-bit two's-complement arithmetic does. */
  function Wrap64(x: int): int
  {
    (x - MinInt64) % Two64 + MinInt64
  }

  /** Within Go's int range, wrapping changes nothing. */
  lemma WrapInRange(x: int)
    requires MinInt64 <= x <= MaxInt64
    ensures Wrap64(x) == x
  {
  }

  /** Adding after wrapping is wrapping after adding. */
  lemma WrapAdd(x: int, k: int)
    ensures Wrap64(Wrap64(x) + k) == Wrap64(x + k)
  {
    var q, a := (x - MinInt64) / Two64, (x - MinInt64) % Two64;
    assert x - MinInt64 == q * Two64 + a;
    var b := (a + k) % Two64;
    var c := (a + k) / Two64;
    assert a + k == c * Two64 + b;
    assert x + k - MinInt64 == (q + c) * Two64 + b;
  }

  /** Inc is `+ 1` on 64-bit two's-complement integers. */
  lemma IncWraps(r: Int64)
    ensures Inc(r) as int == Wrap64(r as int + 1)
  {
  }

  // ---------------------------------------------------------------- put

  /** The revision putTiddler stores: one past the readable old record's, else 1. */
  function NextRevision(prior: Option<Tiddler>): Int64
  {
    match prior
    case None => 1
    case Some(t) => Inc(t.rev)
  }

  /** The text putTiddler keeps apart: the body's `text` when it is a string, else empty. */
  function BodyText(body: Fields): string
  {
    if "text" in body && body["text"].JStr? then body["text"].str else ""
  }

  /** The metadata putTiddler stores: the body without `text`, with `bag` and `revision` forced. */
  function StoredFields(body: Fields, rev: Int64): (meta: Fields)
    ensures "text" !in meta
    ensures "bag" in meta && meta["bag"] == JStr(Bag)
    ensures "revision" in meta && meta["revision"] == JNum(rev as int)
    ensures meta.Keys == body.Keys - {"text"} + {"bag", "revision"}
    ensures forall k :: k in body && k != "text" && k != "bag" && k != "revision" ==> meta[k] == body[k]
  {
    (body - {"text"})["bag" := JStr(Bag)]["revision" := JNum(rev as int)]
  }

  /** The record putTiddler writes for a body that decoded into the object `body`. */
  function PutRecord(p: Platform, prior: Option<Tiddler>, body: Fields): (t: Tiddler)
    ensures Lawful(p.json) ==> p.json.parse(t.meta) == Some(JObj(StoredFields(body, t.rev)))
  {
    var rev := NextRevision(prior);
    Tiddler(rev, p.json.serialize(JObj(StoredFields(body, rev))), BodyText(body))
  }

  /** putTiddler on one record: the record to write, or why the body is refused. */
  function PutOutcome(p: Platform, prior: Option<Tiddler>, body: string): Result<Tiddler, Failure>
  {
    match Unmarshal(p.json, body)
    case ObjectValue(fields) => Success(PutRecord(p, prior, fields))
    case _ => Failure(BodyNotObject)
  }

  /** The Etag header putTiddler answers with: "bag/<escaped title>/<rev>:<md5 of body>", quoted. */
  function Etag(p: Platform, title: string, rev: Int64, body: string): string
  {
    "\"" + Bag + "/" + p.queryEscape(title) + "/" + FormatInt(rev as int) + ":" + p.md5Hex(body) + "\""
  }

  // ---------------------------------------------------------------- get

  /** The object getTiddler answers with: the stored metadata with `text` set to the stored text. */
  function GetObject(p: Platform, prior: Option<Tiddler>): Result<Fields, Failure>
  {
    match prior
    case None => Failure(RecordUnreadable)
    case Some(t) =>
      match Unmarshal(p.json, t.meta)
      case ObjectValue(js) => Success(js["text" := JStr(t.text)])
      case _ => Failure(MetaNotObject)
  }

  /** The body getTiddler writes: the encoding of GetObject. */
  function GetResponse(p: Platform, prior: Option<Tiddler>): Result<string, Failure>
  {
    match GetObject(p, prior)
    case Success(js) => Success(p.json.serialize(JObj(js)))
    case Failure(e) => Failure(e)
  }

  // ---------------------------------------------------------------- delete

  /** The tombstone deleteTiddler writes over a record: next revision, no metadata, no text. */
  function Tombstone(t: Tiddler): Tiddler
  {
    Tiddler(Inc(t.rev), "", "")
  }

  /** deleteTiddler on one record: the tombstone to write, or the read failure. */
  function DeleteOutcome(prior: Option<Tiddler>): Result<Tiddler, Failure>
  {
    match prior
    case None => Failure(RecordUnreadable)
    case Some(t) => Success(Tombstone(t))
  }

  // ---------------------------------------------------------------- properties

  /** A put to a key without a readable record starts at revision 1; otherwise it continues the old one. */
  lemma PutRevision(p: Platform, prior: Option<Tiddler>, body: Fields)
    ensures prior.None? ==> PutRecord(p, prior, body).rev == 1
    ensures prior.Some? && prior.value.rev as int < MaxInt64 ==>
              PutRecord(p, prior, body).rev as int == prior.value.rev as int + 1
    ensures prior.Some? && prior.value.rev as int == MaxInt64 ==>
              PutRecord(p, prior, body).rev as int == MinInt64
  {
  }

  /**
   * A put after a delete continues from the tombstone's revision: two past
   * the deleted record's, wrapping as Go's int does.
   */
  lemma PutAfterDelete(p: Platform, t: Tiddler, body: Fields)
    ensures PutRecord(p, Some(Tombstone(t)), body).rev as int == Wrap64(t.rev as int + 2)
    ensures t.rev as int < MaxInt64 - 1 ==> PutRecord(p, Some(Tombstone(t)), body).rev as int == t.rev as int + 2
  {
    IncWraps(t.rev);
    IncWraps(Inc(t.rev));
    WrapAdd(t.rev as int + 1, 1);
    if t.rev as int < MaxInt64 - 1 {
      WrapInRange(t.rev as int + 2);
    }
  }

  /**
   * What a put stores: the client's fields except `text`, with `bag` and
   * `revision` overriding whatever the client sent, and the text apart
   * (empty when the body's `text` is absent or not a string).
   */
  lemma PutSplitsText(p: Platform, prior: Option<Tiddler>, body: Fields)
    requires Lawful(p.json)
    ensures var t := PutRecord(p, prior, body);
      && Unmarshal(p.json, t.meta) == ObjectValue(StoredFields(body, t.rev))
      && (t.text != "" ==> "text" in body && body["text"] == JStr(t.text))
      && ("text" in body && body["text"].JStr? ==> t.text == body["text"].str)
  {
  }

  /** A body that does not decode into a JSON object is refused, and nothing is written. */
  lemma PutRefusesNonObjects(p: Platform, prior: Option<Tiddler>, body: string)
    ensures PutOutcome(p, prior, body).Failure? <==> !(p.json.parse(body).Some? && p.json.parse(body).value.JObj?)
    ensures PutOutcome(p, prior, body).Failure? ==> PutOutcome(p, prior, body).error == BodyNotObject
  {
  }

  /**
   * Put then get: get answers with the body's fields, `bag` and `revision`
   * overridden by the put, and `text` equal to the stored text.
   */
  lemma PutThenGet(p: Platform, prior: Option<Tiddler>, body: Fields)
    requires Lawful(p.json)
    ensures var t := PutRecord(p, prior, body);
      var r := GetObject(p, Some(t));
      && r.Success?
      && r.value.Keys == body.Keys + {"text", "bag", "revision"}
      && r.value["text"] == JStr(BodyText(body))
      && r.value["bag"] == JStr(Bag)
      && r.value["revision"] == JNum(NextRevision(prior) as int)
      && (forall k :: k in body && k != "text" && k != "bag" && k != "revision" ==> r.value[k] == body[k])
  {
    var t := PutRecord(p, prior, body);
    UnmarshalSerialized(p.json, StoredFields(body, t.rev));
  }

  /** The body get answers with decodes to the object it describes. */
  lemma GetResponseDecodes(p: Platform, prior: Option<Tiddler>)
    requires Lawful(p.json)
    ensures GetResponse(p, prior).Success? <==> GetObject(p, prior).Success?
    ensures GetResponse(p, prior).Success? ==>
              p.json.parse(GetResponse(p, prior).value) == Some(JObj(GetObject(p, prior).value))
  {
  }

  /** get fails exactly when there is no readable record or its metadata is not a JSON object. */
  lemma GetFails(p: Platform, prior: Option<Tiddler>)
    ensures GetObject(p, prior).Failure? <==>
              prior.None? || !(p.json.parse(prior.value.meta).Some? && p.json.parse(prior.value.meta).value.JObj?)
    ensures prior.None? ==> GetObject(p, prior) == Failure(RecordUnreadable)
  {
  }

  /** get on a deleted tiddler fails: the tombstone's empty metadata is not JSON. */
  lemma GetTombstoneFails(p: Platform, t: Tiddler)
    requires Lawful(p.json)
    ensures GetObject(p, Some(Tombstone(t))) == Failure(MetaNotObject)
  {
    UnmarshalEmpty(p.json);
  }

  /** delete fails on a missing record; otherwise it bumps the revision and clears metadata and text. */
  lemma DeleteTombstones(prior: Option<Tiddler>)
    ensures DeleteOutcome(prior).Failure? <==> prior.None?
    ensures prior.Some? ==> DeleteOutcome(prior).value.meta == "" && DeleteOutcome(prior).value.text == ""
    ensures prior.Some? && prior.value.rev as int < MaxInt64 ==>
              DeleteOutcome(prior).value.rev as int == prior.value.rev as int + 1
    ensures prior.Some? && prior.value.rev as int == MaxInt64 ==>
              DeleteOutcome(prior).value.rev as int == MinInt64
  {
  }

  /** Two puts of one body to one title with different revisions answer with different Etags. */
  lemma EtagDistinguishesRevisions(p: Platform, title: string, body: string, r1: Int64, r2: Int64)
    requires r1 != r2
    ensures Etag(p, title, r1, body) != Etag(p, title, r2, body)
  {
    var prefix := "\"" + Bag + "/" + p.queryEscape(title) + "/";
    var suffix := ":" + p.md5Hex(body) + "\"";
    if Etag(p, title, r1, body) == Etag(p, title, r2, body) {
      var e1, e2 := FormatInt(r1 as int), FormatInt(r2 as int);
      assert Etag(p, title, r1, body) == prefix + e1 + suffix;
      assert Etag(p, title, r2, body) == prefix + e2 + suffix;
      assert |e1| == |e2|;
      assert e1 == (prefix + e1 + suffix)[|prefix|..|prefix| + |e1|];
      assert e2 == (prefix + e2 + suffix)[|prefix|..|prefix| + |e2|];
      FormatIntInjective(r1 as int, r2 as int);
    }
  }

  // ---------------------------------------------------------------- histories

  /** A write to one title: a put with a decoded body, or a delete. */
  datatype Write = PutFields(body: Fields) | Delete

  /** The record of one key after one write; a delete of a missing record changes nothing. */
  function Step(p: Platform, prior: Option<Tiddler>, w: Write): Option<Tiddler>
  {
    match w
    case PutFields(body) => Some(PutRecord(p, prior, body))
    case Delete =>
      match DeleteOutcome(prior)
      case Success(d) => Some(d)
      case Failure(_) => prior
  }

  /** The record of one key after a sequence of writes. */
  function Replay(p: Platform, prior: Option<Tiddler>, writes: seq<Write>): Option<Tiddler>
    decreases |writes|
  {
    if writes == [] then prior else Replay(p, Step(p, prior, writes[0]), writes[1..])
  }

  /** How many of the writes take effect: every put, and every delete once a record exists. */
  function Applied(present: bool, writes: seq<Write>): nat
    decreases |writes|
  {
    if writes == [] then 0
    else if writes[0].Delete? && !present then Applied(false, writes[1..])
    else 1 + Applied(true, writes[1..])
  }

  /** The revision a record starts a history from: 0 for a key never written. */
  function BaseRevision(prior: Option<Tiddler>): int
  {
    if prior.None? then 0 else prior.value.rev as int
  }

  /** One write takes effect unless it deletes a missing record, and then raises the revision by one. */
  lemma StepRevision(p: Platform, prior: Option<Tiddler>, w: Write)
    ensures Step(p, prior, w).Some? <==> prior.Some? || w.PutFields?
    ensures w.Delete? && prior.None? ==> Step(p, prior, w) == prior
    ensures prior.Some? || w.PutFields? ==>
              Step(p, prior, w).value.rev as int == Wrap64(BaseRevision(prior) + 1)
    ensures (prior.Some? || w.PutFields?) && BaseRevision(prior) < MaxInt64 ==>
              Step(p, prior, w).value.rev as int == BaseRevision(prior) + 1
  {
    if prior.Some? {
      IncWraps(prior.value.rev);
    }
  }

  /**
   * Every write that takes effect raises the revision by exactly one, as a
   * Go int: a fresh key written n times holds revision n (1, 2, 3 for three
   * puts), and a history that passes the largest int wraps around.
   */
  lemma {:induction false} RevisionCountsWrites(p: Platform, prior: Option<Tiddler>, writes: seq<Write>)
    ensures var r := Replay(p, prior, writes);
      && (r.Some? <==> prior.Some? || Applied(prior.Some?, writes) > 0)
      && (r.Some? ==> r.value.rev as int == Wrap64(BaseRevision(prior) + Applied(prior.Some?, writes)))
      && (r.Some? && BaseRevision(prior) + Applied(prior.Some?, writes) <= MaxInt64 ==>
            r.value.rev as int == BaseRevision(prior) + Applied(prior.Some?, writes))
    decreases |writes|
  {
    if writes == [] {
      if prior.Some? {
        WrapInRange(prior.value.rev as int);
      }
    } else {
      var next := Step(p, prior, writes[0]);
      StepRevision(p, prior, writes[0]);
      RevisionCountsWrites(p, next, writes[1..]);
      if !(writes[0].Delete? && prior.None?) {
        WrapAdd(BaseRevision(prior) + 1, Applied(true, writes[1..]));
      }
    }
  }
}
