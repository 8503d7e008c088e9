/**
 * The document registry: one open replica per `{projectId}:{filePath}` key,
 * seeded lazily from the database, updated by CRDT fragments, and written
 * back by a per-key debounce timer or on close.
 *
 * The CRDT library is a parameter: `apply` merges a fragment into a
 * replica's text or rejects it, and `encode` produces the full-state
 * encoding sent to late joiners. Pending timers are a table from key to
 * the file the timer's callback will persist; `Fire` runs a callback.
 */
module Sync {
  import opened Wrappers
  import opened Text

  type Bytes = seq<bv8>

  /** The database's key for a file row: (projectId, path). */
  datatype FileRef = FileRef(projectId: string, filePath: string)

  /** The columns of a file row that persistence reads or writes. */
  datatype StoredFile = StoredFile(content: string, language: string)

  /** An open replica: its current text, and the file its update listener was registered for. */
  datatype OpenDoc = OpenDoc(text: string, origin: FileRef)

  function DocKey(projectId: string, filePath: string): string {
    projectId + ":" + filePath
  }

  function KeyOf(ref: FileRef): string {
    DocKey(ref.projectId, ref.filePath)
  }

  /** Extension -> editor language, for the extensions the registry knows. */
  const LanguageTable: map<string, string> := map[
    "js" := "javascript", "jsx" := "javascript",
    "ts" := "typescript", "tsx" := "typescript",
    "py" := "python", "java" := "java", "go" := "go", "rs" := "rust",
    "cpp" := "cpp", "c" := "c", "css" := "css", "html" := "html",
    "json" := "json", "md" := "markdown"
  ]

  /** `toLowerCase` on the ASCII letters; every other character is kept. */
  function ToLower(s: string): (r: string)
    ensures |r| == |s|
    ensures forall i :: 0 <= i < |s| ==> r[i] == (if 'A' <= s[i] <= 'Z' then s[i] - 'A' + 'a' else s[i])
    ensures forall i :: 0 <= i < |r| ==> !('A' <= r[i] <= 'Z')
  {
    seq(|s|, i requires 0 <= i < |s| => if 'A' <= s[i] <= 'Z' then s[i] - 'A' + 'a' else s[i])
  }

  /** The lower-cased text after the last '.' of a path (the whole name when there is no '.'). */
  function Extension(filePath: string): string {
    ToLower(AfterLast(filePath, '.'))
  }

  /** The language recorded for a newly created file row. */
  function DetectLanguage(filePath: string): (language: string)
    ensures Extension(filePath) in LanguageTable ==> language == LanguageTable[Extension(filePath)]
    ensures Extension(filePath) !in LanguageTable ==> language == "plaintext"
    ensures language == "plaintext" || language in LanguageTable.Values
  {
    var ext := Extension(filePath);
    if ext in LanguageTable then LanguageTable[ext] else "plaintext"
  }

  /**
   * What `languageMap[ext] || 'plaintext'` evaluates to in JavaScript: the
   * table is a plain object, so besides its own entries the lookup also
   * reaches the members it inherits from Object.prototype.
   */
  datatype JsValue = JsString(s: string) | JsInherited(member: string)

  /** The Object.prototype members whose names are all lower case, so a lower-cased extension can name them. */
  const LowercasePrototypeMembers: set<string> := {"constructor", "__proto__"}

  /** detectLanguage as the source writes it; an inherited member is a function or object, hence truthy. */
  function DetectLanguageAsWritten(filePath: string): (v: JsValue)
    ensures v.JsString? ==> v.s == DetectLanguage(filePath)
  {
    var ext := Extension(filePath);
    if ext in LanguageTable then JsString(LanguageTable[ext])
    else if ext in LowercasePrototypeMembers then JsInherited(ext)
    else JsString("plaintext")
  }

  /** Lower-casing leaves a string without capitals as it is. */
  lemma ToLowerKeepsLower(s: string)
    requires forall i :: 0 <= i < |s| ==> !('A' <= s[i] <= 'Z')
    ensures ToLower(s) == s
  {
  }

  /** The lookup leaks: a file named `notes.constructor` gets the Object constructor, not a language name. */
  lemma DetectLanguageAsWrittenLeaks()
    ensures DetectLanguageAsWritten("notes.constructor") == JsInherited("constructor")
  {
    assert "notes.constructor" == "notes" + ['.'] + "constructor";
    AfterLastSkips("notes", '.', "constructor");
    ToLowerKeepsLower("constructor");
  }

  /** The same holds for `__proto__`: `data.__proto__` gets Object.prototype itself. */
  lemma DetectLanguageAsWrittenLeaksProto()
    ensures DetectLanguageAsWritten("data.__proto__") == JsInherited("__proto__")
  {
    assert "data.__proto__" == "data" + ['.'] + "__proto__";
    AfterLastSkips("data", '.', "__proto__");
    ToLowerKeepsLower("__proto__");
  }

  /** The text a new replica is seeded with: the stored content, or '' when there is none. */
  function SeedText(database: map<FileRef, StoredFile>, ref: FileRef): (text: string)
    ensures ref in database ==> text == database[ref].content
    ensures ref !in database ==> text == ""
  {
    if ref in database && database[ref].content != "" then database[ref].content else ""
  }

  /**
   * The upsert by (projectId, path): an existing row gets the new content and
   * keeps its language; a missing row is created with both.
   */
  function Upsert(database: map<FileRef, StoredFile>, ref: FileRef, content: string, language: string)
    : (r: map<FileRef, StoredFile>)
    ensures r.Keys == database.Keys + {ref}
    ensures r[ref].content == content
    ensures ref in database ==> r[ref].language == database[ref].language
    ensures ref !in database ==> r[ref].language == language
    ensures forall other :: other in database && other != ref ==> r[other] == database[other]
  {
    if ref in database then database[ref := database[ref].(content := content)]
    else database[ref := StoredFile(content, language)]
  }

  /** The text a flush writes for `key`: the open replica's, or '' when none is open. */
  function FlushedContent(docs: map<string, OpenDoc>, key: string): (content: string)
    ensures key in docs ==> content == docs[key].text
    ensures key !in docs ==> content == ""
  {
    if key in docs then docs[key].text else ""
  }

  /** Every open replica and every pending timer sits under the key of the file it belongs to. */
  ghost predicate KeysAgree(docs: map<string, OpenDoc>, timers: map<string, FileRef>) {
    && (forall k :: k in docs ==> k == KeyOf(docs[k].origin))
    && (forall k :: k in timers ==> k == KeyOf(timers[k]))
  }

  class DocumentSync {
    /** The CRDT merge seen through the text: the new text, or None when the fragment is rejected. */
    const apply: (string, Bytes) -> Option<string>
    /** The full-state encoding of a replica. */
    const encode: string -> Bytes

    var docs: map<string, OpenDoc>
    /** Pending debounced flushes: key -> the file its callback persists. At most one per key. */
    var timers: map<string, FileRef>
    /** The database's file rows. */
    var database: map<FileRef, StoredFile>

    ghost predicate Valid()
      reads this
    {
      KeysAgree(docs, timers)
    }

    constructor (apply: (string, Bytes) -> Option<string>, encode: string -> Bytes, database: map<FileRef, StoredFile>)
      ensures Valid()
      ensures this.apply == apply && this.encode == encode && this.database == database
      ensures docs == map[] && timers == map[]
    {
      this.apply := apply;
      this.encode := encode;
      this.database := database;
      docs := map[];
      timers := map[];
    }

    /** The open replica for the file, created and seeded from the database on first use. */
    method GetOrCreateDocument(projectId: string, filePath: string) returns (doc: OpenDoc)
      requires Valid()
      modifies this
      ensures Valid()
      ensures timers == old(timers) && database == old(database)
      ensures DocKey(projectId, filePath) in old(docs) ==> doc == old(docs)[DocKey(projectId, filePath)] && docs == old(docs)
      ensures DocKey(projectId, filePath) !in old(docs) ==>
        && doc == OpenDoc(SeedText(database, FileRef(projectId, filePath)), FileRef(projectId, filePath))
        && docs == old(docs)[DocKey(projectId, filePath) := doc]
    {
      var key := DocKey(projectId, filePath);
      if key in docs {
        return docs[key];
      }
      var ref := FileRef(projectId, filePath);
      var text := "";
      if ref in database && database[ref].content != "" {
        text := database[ref].content;
      }
      // The update listener is registered after seeding, so seeding schedules no flush.
      doc := OpenDoc(text, ref);
      docs := docs[key := doc];
    }

    /** Merges a fragment into an open replica; false when none is open or the fragment is rejected. */
    method ApplyUpdate(projectId: string, filePath: string, update: Bytes) returns (applied: bool)
      requires Valid()
      modifies this
      ensures Valid()
      ensures database == old(database)
      ensures applied <==> DocKey(projectId, filePath) in old(docs)
                           && apply(old(docs)[DocKey(projectId, filePath)].text, update).Some?
      ensures !applied ==> docs == old(docs) && timers == old(timers)
      ensures applied ==>
        var key := DocKey(projectId, filePath);
        var doc := old(docs)[key];
        && docs == old(docs)[key := doc.(text := apply(doc.text, update).value)]
        && timers == old(timers)[key := doc.origin]
    {
      var key := DocKey(projectId, filePath);
      if key !in docs {
        return false;
      }
      var doc := docs[key];
      var merged := apply(doc.text, update);
      if merged.None? {
        return false;
      }
      docs := docs[key := doc.(text := merged.value)];
      // The replica's update listener fires with the file it was registered for.
      SchedulePersist(doc.origin.projectId, doc.origin.filePath);
      applied := true;
    }

    method GetState(projectId: string, filePath: string) returns (state: Option<Bytes>)
      ensures state.Some? <==> DocKey(projectId, filePath) in docs
      ensures state.Some? ==> state.value == encode(docs[DocKey(projectId, filePath)].text)
    {
      var key := DocKey(projectId, filePath);
      if key !in docs {
        return None;
      }
      state := Some(encode(docs[key].text));
    }

    method GetText(projectId: string, filePath: string) returns (text: string)
      ensures DocKey(projectId, filePath) in docs ==> text == docs[DocKey(projectId, filePath)].text
      ensures DocKey(projectId, filePath) !in docs ==> text == ""
    {
      var key := DocKey(projectId, filePath);
      if key !in docs {
        return "";
      }
      text := docs[key].text;
    }

    /** Cancels the key's pending flush, if any, and schedules a new one for this file. */
    method SchedulePersist(projectId: string, filePath: string)
      requires KeysAgree(docs, timers)
      modifies this`timers
      ensures KeysAgree(docs, timers)
      ensures timers == old(timers)[DocKey(projectId, filePath) := FileRef(projectId, filePath)]
    {
      var key := DocKey(projectId, filePath);
      if key in timers {
        timers := timers - {key};
      }
      timers := timers[key := FileRef(projectId, filePath)];
    }

    /** Writes the replica's current text (or '' when none is open) to the file's row. */
    method PersistToDatabase(projectId: string, filePath: string)
      modifies this`database
      ensures database == Upsert(old(database), FileRef(projectId, filePath),
                                 FlushedContent(docs, DocKey(projectId, filePath)), DetectLanguage(filePath))
    {
      var content := GetText(projectId, filePath);
      database := Upsert(database, FileRef(projectId, filePath), content, DetectLanguage(filePath));
    }

    /** The debounce timer of `key` elapses: its callback persists its file, then drops the timer. */
    method Fire(key: string)
      requires Valid()
      modifies this
      ensures Valid()
      ensures docs == old(docs)
      ensures key !in old(timers) ==> timers == old(timers) && database == old(database)
      ensures key in old(timers) ==>
        var ref := old(timers)[key];
        && timers == old(timers) - {key}
        && database == Upsert(old(database), ref, FlushedContent(docs, key), DetectLanguage(ref.filePath))
    {
      if key in timers {
        var ref := timers[key];
        PersistToDatabase(ref.projectId, ref.filePath);
        timers := timers - {key};
      }
    }

    /** Flushes the replica, evicts it and cancels its timer; a replica that is not open is left alone. */
    method CloseDocument(projectId: string, filePath: string)
      requires Valid()
      modifies this
      ensures Valid()
      ensures var key := DocKey(projectId, filePath);
        && docs == old(docs) - {key}
        && timers == old(timers) - {key}
        && (key in old(docs) ==>
              database == Upsert(old(database), FileRef(projectId, filePath), old(docs)[key].text, DetectLanguage(filePath)))
        && (key !in old(docs) ==> database == old(database))
    {
      var key := DocKey(projectId, filePath);
      if key in docs {
        PersistToDatabase(projectId, filePath);
        docs := docs - {key};
      }
      if key in timers {
        timers := timers - {key};
      }
    }

    /** closeDocument as the source writes it: it persists even when nothing is open, writing ''. */
    method CloseDocumentAsWritten(projectId: string, filePath: string)
      requires Valid()
      modifies this
      ensures Valid()
      ensures var key := DocKey(projectId, filePath);
        && docs == old(docs) - {key}
        && timers == old(timers) - {key}
        && database == Upsert(old(database), FileRef(projectId, filePath),
                              FlushedContent(old(docs), key), DetectLanguage(filePath))
    {
      var key := DocKey(projectId, filePath);
      PersistToDatabase(projectId, filePath);
      if key in docs {
        docs := docs - {key};
      }
      if key in timers {
        timers := timers - {key};
      }
    }

    /** The keys of the open replicas, each once. */
    method GetActiveDocuments() returns (keys: seq<string>)
      ensures (set k | k in keys) == docs.Keys
      ensures forall i, j :: 0 <= i < j < |keys| ==> keys[i] != keys[j]
    {
      var remaining := docs.Keys;
      keys := [];
      while remaining != {}
        invariant remaining <= docs.Keys
        invariant (set k | k in keys) == docs.Keys - remaining
        invariant forall i, j :: 0 <= i < j < |keys| ==> keys[i] != keys[j]
        decreases remaining
      {
        var key :| key in remaining;
        assert (set k | k in keys + [key]) == (set k | k in keys) + {key};
        keys := keys + [key];
        remaining := remaining - {key};
      }
    }
  }

  /** Closing a file that is not open, as written, replaces its stored content with ''. */
  lemma CloseAsWrittenErasesContent(database: map<FileRef, StoredFile>, ref: FileRef, docs: map<string, OpenDoc>)
    requires ref in database && database[ref].content != ""
    requires KeyOf(ref) !in docs
    ensures var key := KeyOf(ref);
      var written := Upsert(database, ref, FlushedContent(docs, key), DetectLanguage(ref.filePath));
      written[ref].content == "" != database[ref].content
  {
  }
}
