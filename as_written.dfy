/**
 * putTiddler and getTiddler as written, for the one input on which they
 * differ from the model in Tiddly: JSON `null`. json.Unmarshal accepts
 * `null` into a `map[string]interface{}` without an error and leaves the map
 * nil, and the next assignment into a nil map panics, so the handler dies
 * without writing a response. The model in Tiddly answers with an error.
 */
module AsWritten {
  import opened Wrappers
  import opened Json
  import opened Tiddly

  /** What a handler as written does: completes, answers with an error, or panics. */
  datatype Ending<+T> = Completed(value: T) | Refused(failure: Failure) | Panicked

  /** putTiddler on one record as written: `js["bag"] = "bag"` runs even when js is nil. */
  function PutAsWritten(p: Platform, prior: Option<Tiddler>, body: string): Ending<Tiddler>
  {
    match Unmarshal(p.json, body)
    case Malformed => Refused(BodyNotObject)
    case NilMap => Panicked
    case ObjectValue(fields) => Completed(PutRecord(p, prior, fields))
  }

  /** getTiddler on one record as written: `js["text"] = ...` runs even when js is nil. */
  function GetAsWritten(p: Platform, prior: Option<Tiddler>): Ending<Fields>
  {
    match prior
    case None => Refused(RecordUnreadable)
    case Some(t) =>
      match Unmarshal(p.json, t.meta)
      case Malformed => Refused(MetaNotObject)
      case NilMap => Panicked
      case ObjectValue(js) => Completed(js["text" := JStr(t.text)])
  }

  /** A PUT whose body is `null` panics as written; the model refuses it and writes nothing. */
  lemma NullBodyPanics(p: Platform, prior: Option<Tiddler>, body: string)
    requires p.json.parse(body) == Some(JNull)
    ensures PutAsWritten(p, prior, body) == Panicked
    ensures PutOutcome(p, prior, body) == Failure(BodyNotObject)
  {
  }

  /** A GET of a record whose Meta is `null` panics as written; the model answers with an error. */
  lemma NullMetaPanics(p: Platform, t: Tiddler)
    requires p.json.parse(t.meta) == Some(JNull)
    ensures GetAsWritten(p, Some(t)) == Panicked
    ensures GetObject(p, Some(t)) == Failure(MetaNotObject)
  {
  }

  /** On every body other than `null`, put as written and the model agree. */
  lemma AgreeOffNull(p: Platform, prior: Option<Tiddler>, body: string)
    requires p.json.parse(body) != Some(JNull)
    ensures PutAsWritten(p, prior, body) ==
              match PutOutcome(p, prior, body)
              case Success(t) => Completed(t)
              case Failure(e) => Refused(e)
  {
  }

  /**
   * On every record other than one whose Meta is `null`, a missing record
   * included, get as written and the model agree.
   */
  lemma GetAgreesOffNull(p: Platform, prior: Option<Tiddler>)
    ensures (prior.None? || p.json.parse(prior.value.meta) != Some(JNull)) ==>
              GetAsWritten(p, prior) ==
                match GetObject(p, prior)
                case Success(js) => Completed(js)
                case Failure(e) => Refused(e)
  {
  }
}
