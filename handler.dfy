/*
 * The `email` handler of the worker: parse the message, render the note,
 * derive its key, and store the note in the bucket unless a note with that
 * key is already there.  Any failure along the way is swallowed, so the
 * message is never bounced.
 */
module Handler {
  import opened Wrappers
  import opened JsString
  import opened JsDate
  import opened Worker

  /** What the bucket holds under one key: the note's text and its custom metadata. */
  datatype StoredObject = StoredObject(body: string, customMetadata: map<string, string>)

  /** The R2 bucket the notes are written to, as a map from key to object. */
  class Bucket {
    var objects: map<string, StoredObject>

    constructor(initial: map<string, StoredObject>)
      ensures objects == initial
    {
      objects := initial;
    }

    /** `head(key)`: whether an object is stored under `key`; nothing changes. */
    method Head(key: string) returns (found: bool)
      ensures found <==> key in objects
    {
      found := key in objects;
    }

    /** `put(key, body, { customMetadata })`: store, replacing whatever was there. */
    method Put(key: string, body: string, customMetadata: map<string, string>)
      modifies this
      ensures objects == old(objects)[key := StoredObject(body, customMetadata)]
    {
      objects := objects[key := StoredObject(body, customMetadata)];
    }
  }

  /** The worker's bindings: the bucket and the folder notes are filed in. */
  datatype Env = Env(bucket: Bucket, inboxFolder: string)

  /** How one delivery ended: a new note, a duplicate left alone, or a swallowed error. */
  datatype Outcome = Created(key: string) | AlreadyExists(key: string) | Failed

  /** The custom metadata stored with a note. */
  function NoteMetadata(messageId: string, created: string): map<string, string>
  {
    map["email-id" := messageId, "created" := created]
  }

  /**
   * One delivery, as a function of the bucket's contents before it.
   * `putTime` is the clock reading taken when the object is written.
   * Rendering the note and its key fail (throw) on an invalid date, and so
   * does stamping the metadata with an invalid `putTime`; every such
   * failure leaves the bucket as it was.
   */
  function Ingest(objects: map<string, StoredObject>, message: EmailMessage, inboxFolder: string,
                  rt: Runtime, putTime: Date): (r: (map<string, StoredObject>, Outcome))
    ensures !r.1.Created? ==> r.0 == objects
    ensures !r.1.Failed? ==> KeyOf(message, inboxFolder, rt) == Some(r.1.key)
  {
    var parsed := ParseEmail(message, rt);
    Store(objects, GenerateMarkdown(parsed, rt.formatDateLong), GenerateFilename(parsed, inboxFolder),
          parsed.messageId, putTime)
  }

  /** The part of a delivery after rendering: the duplicate check and the write. */
  function Store(objects: map<string, StoredObject>, markdown: Option<string>, filename: Option<string>,
                 messageId: string, putTime: Date): (r: (map<string, StoredObject>, Outcome))
    ensures !r.1.Created? ==> r.0 == objects
    ensures !r.1.Failed? ==> filename == Some(r.1.key)
    ensures r.1.Created? ==> r.1.key !in objects && r.0.Keys == objects.Keys + {r.1.key}
  {
    if markdown.None? || filename.None? then (objects, Failed)
    else if filename.value in objects then (objects, AlreadyExists(filename.value))
    else
      match ToISOString(putTime)
      case None => (objects, Failed)
      case Some(created) =>
        (objects[filename.value := StoredObject(markdown.value, NoteMetadata(messageId, created))],
         Created(filename.value))
  }

  /** The duplicate check and the write, case by case. */
  lemma StoreOutcome(objects: map<string, StoredObject>, markdown: Option<string>, filename: Option<string>,
                     messageId: string, putTime: Date)
    ensures var (after, outcome) := Store(objects, markdown, filename, messageId, putTime);
      && (outcome.Failed? <==>
            markdown.None? || filename.None? || (filename.value !in objects && putTime.InvalidDate?))
      && (!outcome.Failed? ==> filename == Some(outcome.key))
      && (outcome.AlreadyExists? <==> filename.Some? && markdown.Some? && filename.value in objects)
      && (outcome.Created? ==>
            && outcome.key !in objects && putTime.Utc?
            && after == objects[outcome.key := StoredObject(markdown.value,
                                                            NoteMetadata(messageId, ToISOString(putTime).value))])
      && (!outcome.Created? ==> after == objects)
  {
  }

  /**
   * Once a note has been stored or found under a key, storing a rendering
   * under that key again finds it and changes nothing, whatever the new
   * text, id or time.
   */
  lemma StoreTwice(objects: map<string, StoredObject>, markdown1: Option<string>, markdown2: Option<string>,
                   filename: Option<string>, messageId1: string, messageId2: string, putTime1: Date, putTime2: Date)
    requires markdown1.Some? <==> markdown2.Some?
    ensures var (after1, outcome1) := Store(objects, markdown1, filename, messageId1, putTime1);
      var (after2, outcome2) := Store(after1, markdown2, filename, messageId2, putTime2);
      && !(outcome1.Created? && outcome2.Created?)
      && (!outcome1.Failed? ==> after2 == after1 && outcome2 == AlreadyExists(outcome1.key))
  {
    var (after1, outcome1) := Store(objects, markdown1, filename, messageId1, putTime1);
    StoreOutcome(objects, markdown1, filename, messageId1, putTime1);
    StoreOutcome(after1, markdown2, filename, messageId2, putTime2);
    if outcome1.Created? {
      assert outcome1.key in after1;
    }
  }

  /** A store never overwrites or removes what is already in the bucket. */
  lemma StoreNeverOverwrites(objects: map<string, StoredObject>, markdown: Option<string>, filename: Option<string>,
                             messageId: string, putTime: Date)
    ensures var after := Store(objects, markdown, filename, messageId, putTime).0;
      forall k :: k in objects ==> k in after && after[k] == objects[k]
  {
    StoreOutcome(objects, markdown, filename, messageId, putTime);
  }

  /** The key a message would be filed under, if it has one. */
  function KeyOf(message: EmailMessage, inboxFolder: string, rt: Runtime): Option<string>
  {
    GenerateFilename(ParseEmail(message, rt), inboxFolder)
  }

  /** `email`: the handler itself, over the bucket object it is given. */
  method Email(message: EmailMessage, env: Env, rt: Runtime, putTime: Date) returns (outcome: Outcome)
    modifies env.bucket
    ensures (env.bucket.objects, outcome) == Ingest(old(env.bucket.objects), message, env.inboxFolder, rt, putTime)
  {
    var parsed := ParseEmail(message, rt);
    var markdown := GenerateMarkdown(parsed, rt.formatDateLong);
    var filename := GenerateFilename(parsed, env.inboxFolder);
    if markdown.None? || filename.None? {
      return Failed;
    }
    var existing := env.bucket.Head(filename.value);
    if existing {
      return AlreadyExists(filename.value);
    }
    var created := ToISOString(putTime);
    if created.None? {
      return Failed;
    }
    env.bucket.Put(filename.value, markdown.value, NoteMetadata(parsed.messageId, created.value));
    outcome := Created(filename.value);
  }

  /** A delivery is the store of the message's rendering under its key. */
  lemma IngestIsStore(objects: map<string, StoredObject>, message: EmailMessage, inboxFolder: string,
                      rt: Runtime, putTime: Date)
    ensures var parsed := ParseEmail(message, rt);
      Ingest(objects, message, inboxFolder, rt, putTime) ==
      Store(objects, GenerateMarkdown(parsed, rt.formatDateLong), KeyOf(message, inboxFolder, rt),
            parsed.messageId, putTime)
  {
  }

  /** A delivery fails exactly when the message's date is invalid, or when a new note would be stamped with an invalid time. */
  lemma IngestFails(objects: map<string, StoredObject>, message: EmailMessage, inboxFolder: string,
                    rt: Runtime, putTime: Date)
    ensures Ingest(objects, message, inboxFolder, rt, putTime).1.Failed? <==>
      ParseEmail(message, rt).date.InvalidDate? ||
      (KeyOf(message, inboxFolder, rt).Some? && KeyOf(message, inboxFolder, rt).value !in objects &&
       putTime.InvalidDate?)
  {
    var parsed := ParseEmail(message, rt);
    var markdown, key := GenerateMarkdown(parsed, rt.formatDateLong), KeyOf(message, inboxFolder, rt);
    IngestIsStore(objects, message, inboxFolder, rt, putTime);
    StoreOutcome(objects, markdown, key, parsed.messageId, putTime);
    FilenameShape(parsed, inboxFolder);
    GenerateMarkdownDefined(parsed, rt.formatDateLong);
  }

  /** Every outcome names the message's key, and the bucket changes only on `Created`, by that one key. */
  lemma IngestOutcome(objects: map<string, StoredObject>, message: EmailMessage, inboxFolder: string,
                      rt: Runtime, putTime: Date)
    ensures var (after, outcome) := Ingest(objects, message, inboxFolder, rt, putTime);
      && (!outcome.Failed? ==> KeyOf(message, inboxFolder, rt) == Some(outcome.key))
      && (outcome.AlreadyExists? ==> outcome.key in objects)
      && (outcome.Created? ==> outcome.key !in objects && after.Keys == objects.Keys + {outcome.key})
      && (!outcome.Created? ==> after == objects)
  {
    var parsed := ParseEmail(message, rt);
    var markdown, key := GenerateMarkdown(parsed, rt.formatDateLong), KeyOf(message, inboxFolder, rt);
    IngestIsStore(objects, message, inboxFolder, rt, putTime);
    StoreOutcome(objects, markdown, key, parsed.messageId, putTime);
  }

  /** No delivery overwrites or removes a note that is already stored. */
  lemma IngestNeverOverwrites(objects: map<string, StoredObject>, message: EmailMessage, inboxFolder: string,
                              rt: Runtime, putTime: Date)
    ensures var after := Ingest(objects, message, inboxFolder, rt, putTime).0;
      forall k :: k in objects ==> k in after && after[k] == objects[k]
  {
    var parsed := ParseEmail(message, rt);
    var markdown, key := GenerateMarkdown(parsed, rt.formatDateLong), KeyOf(message, inboxFolder, rt);
    IngestIsStore(objects, message, inboxFolder, rt, putTime);
    StoreNeverOverwrites(objects, markdown, key, parsed.messageId, putTime);
  }

  /** A stored note carries the rendered markdown, the message's sanitized id and the write time. */
  lemma CreatedNote(objects: map<string, StoredObject>, message: EmailMessage, inboxFolder: string,
                    rt: Runtime, putTime: Date)
    requires Ingest(objects, message, inboxFolder, rt, putTime).1.Created?
    ensures var (after, outcome) := Ingest(objects, message, inboxFolder, rt, putTime);
      var parsed := ParseEmail(message, rt);
      && putTime.Utc?
      && after[outcome.key].body == GenerateMarkdown(parsed, rt.formatDateLong).value
      && after[outcome.key].customMetadata == NoteMetadata(parsed.messageId, ToISOString(putTime).value)
      && forall i :: 0 <= i < |after[outcome.key].customMetadata["email-id"]| ==>
           IsIdChar(after[outcome.key].customMetadata["email-id"][i])
  {
    var parsed := ParseEmail(message, rt);
    var markdown, key := GenerateMarkdown(parsed, rt.formatDateLong), KeyOf(message, inboxFolder, rt);
    IngestIsStore(objects, message, inboxFolder, rt, putTime);
    StoreOutcome(objects, markdown, key, parsed.messageId, putTime);
  }

  /** Two clock readings fall on the same UTC calendar day (two invalid readings count as the same). */
  predicate SameUtcDay(d1: Date, d2: Date)
  {
    (d1.InvalidDate? && d2.InvalidDate?) ||
    (d1.Utc? && d2.Utc? && d1.year == d2.year && d1.month == d2.month && d1.day == d2.day)
  }

  /**
   * A redelivery runs with the same parsers but reads the clock and draws
   * an id afresh.  When the message carries a Date header, or the clock
   * still reads the same UTC day, the message is written at most once,
   * and once the first delivery got past rendering, the second finds the
   * note and leaves the bucket as the first delivery left it.
   */
  lemma IngestTwice(objects: map<string, StoredObject>, message: EmailMessage, inboxFolder: string,
                    rt1: Runtime, rt2: Runtime, putTime1: Date, putTime2: Date)
    requires rt2 == rt1.(now := rt2.now, generatedId := rt2.generatedId)
    requires Truthy(Get(message.headers, "date")) || SameUtcDay(rt1.now, rt2.now)
    ensures var (after1, outcome1) := Ingest(objects, message, inboxFolder, rt1, putTime1);
      var (after2, outcome2) := Ingest(after1, message, inboxFolder, rt2, putTime2);
      && !(outcome1.Created? && outcome2.Created?)
      && (!outcome1.Failed? ==> after2 == after1 && outcome2 == AlreadyExists(outcome1.key))
  {
    var p1, p2 := ParseEmail(message, rt1), ParseEmail(message, rt2);
    var md1, md2 := GenerateMarkdown(p1, rt1.formatDateLong), GenerateMarkdown(p2, rt2.formatDateLong);
    var after1 := Ingest(objects, message, inboxFolder, rt1, putTime1).0;
    SameKey(message, inboxFolder, rt1, rt2);
    GenerateMarkdownDefined(p1, rt1.formatDateLong);
    GenerateMarkdownDefined(p2, rt2.formatDateLong);
    IngestIsStore(objects, message, inboxFolder, rt1, putTime1);
    IngestIsStore(after1, message, inboxFolder, rt2, putTime2);
    StoreTwice(objects, md1, md2, KeyOf(message, inboxFolder, rt1), p1.messageId, p2.messageId, putTime1, putTime2);
  }

  /** Under the conditions of `IngestTwice`, both deliveries compute the same key and agree on whether the date is valid. */
  lemma SameKey(message: EmailMessage, inboxFolder: string, rt1: Runtime, rt2: Runtime)
    requires rt2 == rt1.(now := rt2.now, generatedId := rt2.generatedId)
    requires Truthy(Get(message.headers, "date")) || SameUtcDay(rt1.now, rt2.now)
    ensures KeyOf(message, inboxFolder, rt1) == KeyOf(message, inboxFolder, rt2)
    ensures ParseEmail(message, rt1).date.InvalidDate? <==> ParseEmail(message, rt2).date.InvalidDate?
  {
    var p1, p2 := ParseEmail(message, rt1), ParseEmail(message, rt2);
    if Truthy(Get(message.headers, "date")) {
      FilenameDependsOnDateAndSubject(p1, p2, inboxFolder);
    } else {
      FilenameShape(p1, inboxFolder);
      FilenameShape(p2, inboxFolder);
    }
  }

  /** No note is stored under `key`, if there is a key. */
  predicate NotStored(objects: map<string, StoredObject>, key: Option<string>)
  {
    key.Some? ==> key.value !in objects
  }

  /**
   * A message without a Date header that is redelivered on another UTC
   * day is filed under a second key: both deliveries write a note.
   */
  lemma UndatedRedeliveryWrittenTwice(objects: map<string, StoredObject>, message: EmailMessage, inboxFolder: string,
                                      rt1: Runtime, rt2: Runtime, putTime1: Date, putTime2: Date)
    requires !Truthy(Get(message.headers, "date"))
    requires rt1.now.Utc? && rt2.now.Utc? && !SameUtcDay(rt1.now, rt2.now)
    requires putTime1.Utc? && putTime2.Utc?
    requires NotStored(objects, KeyOf(message, inboxFolder, rt1)) && NotStored(objects, KeyOf(message, inboxFolder, rt2))
    ensures var (after1, outcome1) := Ingest(objects, message, inboxFolder, rt1, putTime1);
      var (after2, outcome2) := Ingest(after1, message, inboxFolder, rt2, putTime2);
      && outcome1.Created? && outcome2.Created? && outcome1.key != outcome2.key
      && after2.Keys == objects.Keys + {outcome1.key, outcome2.key}
  {
    var p1, p2 := ParseEmail(message, rt1), ParseEmail(message, rt2);
    var key1, key2 := KeyOf(message, inboxFolder, rt1), KeyOf(message, inboxFolder, rt2);
    var md1, md2 := GenerateMarkdown(p1, rt1.formatDateLong), GenerateMarkdown(p2, rt2.formatDateLong);
    UndatedKeysDiffer(message, inboxFolder, rt1, rt2);
    GenerateMarkdownDefined(p1, rt1.formatDateLong);
    GenerateMarkdownDefined(p2, rt2.formatDateLong);
    var after1 := Ingest(objects, message, inboxFolder, rt1, putTime1).0;
    IngestIsStore(objects, message, inboxFolder, rt1, putTime1);
    IngestIsStore(after1, message, inboxFolder, rt2, putTime2);
    StoreTwoKeys(objects, md1, md2, key1, key2, p1.messageId, p2.messageId, putTime1, putTime2);
  }

  /** Two stores under two different keys, neither of them taken, both write. */
  lemma StoreTwoKeys(objects: map<string, StoredObject>, markdown1: Option<string>, markdown2: Option<string>,
                     filename1: Option<string>, filename2: Option<string>, messageId1: string, messageId2: string,
                     putTime1: Date, putTime2: Date)
    requires markdown1.Some? && markdown2.Some? && filename1.Some? && filename2.Some? && filename1 != filename2
    requires filename1.value !in objects && filename2.value !in objects
    requires putTime1.Utc? && putTime2.Utc?
    ensures var (after1, outcome1) := Store(objects, markdown1, filename1, messageId1, putTime1);
      var (after2, outcome2) := Store(after1, markdown2, filename2, messageId2, putTime2);
      && outcome1 == Created(filename1.value) && outcome2 == Created(filename2.value)
      && after2.Keys == objects.Keys + {filename1.value, filename2.value}
  {
    var after1 := Store(objects, markdown1, filename1, messageId1, putTime1).0;
    StoreOutcome(objects, markdown1, filename1, messageId1, putTime1);
    StoreOutcome(after1, markdown2, filename2, messageId2, putTime2);
  }

  /** Without a Date header, deliveries on two different UTC days get two different keys. */
  lemma UndatedKeysDiffer(message: EmailMessage, inboxFolder: string, rt1: Runtime, rt2: Runtime)
    requires !Truthy(Get(message.headers, "date"))
    requires rt1.now.Utc? && rt2.now.Utc? && !SameUtcDay(rt1.now, rt2.now)
    ensures KeyOf(message, inboxFolder, rt1).Some? && KeyOf(message, inboxFolder, rt2).Some?
    ensures KeyOf(message, inboxFolder, rt1) != KeyOf(message, inboxFolder, rt2)
  {
    var p1, p2 := ParseEmail(message, rt1), ParseEmail(message, rt2);
    FilenameShape(p1, inboxFolder);
    FilenameShape(p2, inboxFolder);
    if KeyOf(message, inboxFolder, rt1) == KeyOf(message, inboxFolder, rt2) {
      FilenameDeterminesDay(p1, p2, inboxFolder);
      assert false;
    }
  }

  /**
   * Deduplication across deliveries: a second message whose Date header
   * and subject read the same as a stored one's is not written, whatever
   * its body, sender, id or arrival time.
   */
  lemma {:induction false} DuplicateNotWritten(objects: map<string, StoredObject>,
                                               m1: EmailMessage, rt1: Runtime, putTime1: Date,
                                               m2: EmailMessage, rt2: Runtime, putTime2: Date,
                                               inboxFolder: string)
    requires Truthy(Get(m1.headers, "date")) && Truthy(Get(m2.headers, "date"))
    requires rt1.parseDate(m1.headers["date"]) == rt2.parseDate(m2.headers["date"])
    requires Or(Get(m1.headers, "subject"), "No Subject") == Or(Get(m2.headers, "subject"), "No Subject")
    requires Ingest(objects, m1, inboxFolder, rt1, putTime1).1.Created?
    ensures var after1 := Ingest(objects, m1, inboxFolder, rt1, putTime1).0;
      Ingest(after1, m2, inboxFolder, rt2, putTime2) ==
        (after1, AlreadyExists(Ingest(objects, m1, inboxFolder, rt1, putTime1).1.key))
  {
    var p1, p2 := ParseEmail(m1, rt1), ParseEmail(m2, rt2);
    assert p1.subject == p2.subject;
    FilenameDependsOnDateAndSubject(p1, p2, inboxFolder);
    IngestOutcome(objects, m1, inboxFolder, rt1, putTime1);
    FilenameShape(p2, inboxFolder);
    GenerateMarkdownDefined(p2, rt2.formatDateLong);
  }
}
