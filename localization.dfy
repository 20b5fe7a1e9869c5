/**
 * Loading the message catalog and serving lookups (localization/localization.go).
 *
 * The package keeps two globals, the go-i18n bundle and the trie of message
 * ids; here they are the two fields of a LocaleState object. The bundle is
 * abstracted as a map from language tag to a map from message id to its
 * `Other` text. The locale directory is given already read and decoded: a
 * listing of entries, each with its name and what opening and decoding it
 * gives. Rendering a message (go-i18n's MustLocalize) is a function parameter.
 */
module Localization {
  import opened Tree

  /** A record of a locale file: `{"id": ..., "other": ...}`. */
  datatype Message = Message(id: string, other: string)

  /** What opening one directory entry and decoding it as a JSON list of records gives. */
  datatype FileData = OpenFailed | DecodeFailed | Decoded(messages: seq<Message>)

  datatype DirEntry = DirEntry(name: string, data: FileData)

  /** The result of listing the locale directory: its entries, in listing order. */
  datatype Directory = Unreadable | Listing(entries: seq<DirEntry>)

  datatype LoadError = ReadDirError | OpenError(file: string) | DecodeError(file: string)

  datatype Outcome = Pass | Fail(error: LoadError)

  /** Message texts per language tag, then per message id. */
  type Bundle = map<string, map<string, string>>

  /** The tag of go-i18n's language.English, the only language messages are registered under. */
  const English: string := "en"

  /** What a load changes: the set of ids in the trie, and the bundle. */
  datatype Catalog = Catalog(keys: set<string>, bundle: Bundle)

  const EmptyCatalog: Catalog := Catalog({}, map[])

  // ---------------------------------------------------------------------------
  // File names

  /** Go's filepath.Ext scanning backwards from position `i`: the suffix from the last '.' of the final element. */
  function ExtFrom(path: string, i: nat): (ext: string)
    requires i <= |path|
    ensures ext == [] || (ext[0] == '.' && |ext| <= |path| && ext == path[|path| - |ext|..])
    decreases i
  {
    if i == 0 || path[i - 1] == '/' then []
    else if path[i - 1] == '.' then path[i - 1..]
    else ExtFrom(path, i - 1)
  }

  /** The extension holds no '.' after its first character and no '/': no later byte of the path is one. */
  lemma {:induction false} ExtFromShape(path: string, i: nat)
    requires i <= |path|
    requires forall k :: i <= k < |path| ==> path[k] != '.' && path[k] != '/'
    ensures forall k :: |path| - |ExtFrom(path, i)| < k < |path| ==> path[k] != '.' && path[k] != '/'
    decreases i
  {
    if i > 0 && path[i - 1] != '/' && path[i - 1] != '.' {
      ExtFromShape(path, i - 1);
    }
  }

  /** Go's filepath.Ext: empty, or the suffix from the last '.' of the final path element. */
  function Ext(path: string): (ext: string)
    ensures ext == [] || (ext[0] == '.' && |ext| <= |path| && ext == path[|path| - |ext|..])
    ensures forall k :: |path| - |ext| < k < |path| ==> path[k] != '.' && path[k] != '/'
  {
    ExtFromShape(path, |path|);
    ExtFrom(path, |path|)
  }

  /** The filter of LoadLocaleFiles: an entry is loaded exactly when its name ends in ".json". */
  function IsJson(name: string): (json: bool)
    ensures json <==> (|name| >= 5 && name[|name| - 5..] == ".json")
  {
    JsonExtension(name);
    Ext(name) == ".json"
  }

  /** The extension is ".json" exactly when the name ends in ".json". */
  lemma JsonExtension(name: string)
    ensures Ext(name) == ".json" <==> (|name| >= 5 && name[|name| - 5..] == ".json")
  {
    if |name| >= 5 && name[|name| - 5..] == ".json" {
      JsonSuffixIsJson(name);
    }
  }

  lemma JsonSuffixIsJson(name: string)
    requires |name| >= 5 && name[|name| - 5..] == ".json"
    ensures Ext(name) == ".json"
  {
    var n := |name|;
    forall k | n - 5 < k < n ensures name[k] != '.' && name[k] != '/' {
      assert name[k] == name[n - 5..][k - (n - 5)];
    }
    assert name[n - 5] == name[n - 5..][0];
    ExtFromLastDot(name, n, n - 5);
  }

  /** Scanning back from `i` over no '.' and no '/' to a '.' at `j` gives the suffix from `j`. */
  lemma {:induction false} ExtFromLastDot(path: string, i: nat, j: nat)
    requires j < i <= |path| && path[j] == '.'
    requires forall k :: j < k < i ==> path[k] != '.' && path[k] != '/'
    ensures ExtFrom(path, i) == path[j..]
    decreases i
  {
    if i - 1 > j {
      ExtFromLastDot(path, i - 1, j);
    }
  }

  // ---------------------------------------------------------------------------
  // The effect of registering records

  function EnglishMessages(bundle: Bundle): map<string, string> {
    if English in bundle then bundle[English] else map[]
  }

  /** bundle.AddMessages(language.English, m): the record's text is stored under English, replacing an older one. */
  function RegisterEnglish(bundle: Bundle, m: Message): (registered: Bundle)
    ensures EnglishMessages(registered) == EnglishMessages(bundle)[m.id := m.other]
    ensures registered - {English} == bundle - {English}
  {
    bundle[English := EnglishMessages(bundle)[m.id := m.other]]
  }

  /** The trie holds exactly the ids that have an English text: the two are updated together, record by record. */
  predicate InStep(c: Catalog) {
    c.keys == EnglishMessages(c.bundle).Keys
  }

  /** Registering one record: its id is inserted in the trie and its text into the bundle. */
  function AddMessage(c: Catalog, m: Message): (added: Catalog)
    ensures added.keys == c.keys + {m.id} && m.id in EnglishMessages(added.bundle)
    ensures InStep(c) ==> InStep(added)
  {
    Catalog(c.keys + {m.id}, RegisterEnglish(c.bundle, m))
  }

  /** Registering records in order. */
  function AddMessages(c: Catalog, ms: seq<Message>): (added: Catalog)
    ensures c.keys <= added.keys
    ensures InStep(c) ==> InStep(added)
    decreases |ms|
  {
    if ms == [] then c else AddMessages(AddMessage(c, ms[0]), ms[1..])
  }

  function Ids(ms: seq<Message>): set<string> {
    set m | m in ms :: m.id
  }

  /** The text each id is left with once `ms` is registered in order. */
  function MessageMap(ms: seq<Message>): (texts: map<string, string>)
    ensures texts.Keys == Ids(ms)
    decreases |ms|
  {
    if ms == [] then map[]
    else
      assert ms == [ms[0]] + ms[1..];
      map[ms[0].id := ms[0].other] + MessageMap(ms[1..])
  }

  /** The last record with a given id decides its text. */
  lemma {:induction false} LastRecordWins(ms: seq<Message>, k: nat)
    requires k < |ms|
    requires forall k2 :: k < k2 < |ms| ==> ms[k2].id != ms[k].id
    ensures MessageMap(ms)[ms[k].id] == ms[k].other
    decreases k
  {
    var rest := ms[1..];
    if k == 0 {
      assert ms[0].id !in Ids(rest) by {
        forall m | m in rest ensures m.id != ms[0].id {
          var k2 :| 0 <= k2 < |rest| && rest[k2] == m;
          assert ms[k2 + 1] == m;
        }
      }
    } else {
      forall k2 | k - 1 < k2 < |rest| ensures rest[k2].id != rest[k - 1].id {
        assert rest[k2] == ms[k2 + 1];
      }
      LastRecordWins(rest, k - 1);
      assert rest[k - 1] == ms[k];
    }
  }

  lemma {:induction false} AddMessagesConcat(c: Catalog, a: seq<Message>, b: seq<Message>)
    ensures AddMessages(c, a + b) == AddMessages(AddMessages(c, a), b)
    decreases |a|
  {
    if a == [] {
      assert a + b == b;
    } else {
      assert (a + b)[0] == a[0] && (a + b)[1..] == a[1..] + b;
      AddMessagesConcat(AddMessage(c, a[0]), a[1..], b);
    }
  }

  lemma MapUpdateUnion(a: map<string, string>, k: string, v: string, b: map<string, string>)
    ensures a[k := v] + b == a + (map[k := v] + b)
  {
  }

  /**
   * Registering records inserts exactly their ids, stores under English the
   * text of the last record of each id, and leaves every other language alone.
   */
  lemma AddMessagesEffect(c: Catalog, ms: seq<Message>)
    ensures AddMessages(c, ms).keys == c.keys + Ids(ms)
    ensures EnglishMessages(AddMessages(c, ms).bundle) == EnglishMessages(c.bundle) + MessageMap(ms)
    ensures AddMessages(c, ms).bundle - {English} == c.bundle - {English}
  {
    AddMessagesKeys(c, ms);
    AddMessagesEnglish(c, ms);
    AddMessagesOthers(c, ms);
  }

  lemma {:induction false} AddMessagesKeys(c: Catalog, ms: seq<Message>)
    ensures AddMessages(c, ms).keys == c.keys + Ids(ms)
    decreases |ms|
  {
    if ms != [] {
      AddMessagesKeys(AddMessage(c, ms[0]), ms[1..]);
      assert Ids(ms) == {ms[0].id} + Ids(ms[1..]) by {
        assert ms == [ms[0]] + ms[1..];
      }
    }
  }

  lemma {:induction false} AddMessagesEnglish(c: Catalog, ms: seq<Message>)
    ensures EnglishMessages(AddMessages(c, ms).bundle) == EnglishMessages(c.bundle) + MessageMap(ms)
    decreases |ms|
  {
    if ms != [] {
      var m := ms[0];
      AddMessagesEnglish(AddMessage(c, m), ms[1..]);
      MapUpdateUnion(EnglishMessages(c.bundle), m.id, m.other, MessageMap(ms[1..]));
    }
  }

  lemma {:induction false} AddMessagesOthers(c: Catalog, ms: seq<Message>)
    ensures AddMessages(c, ms).bundle - {English} == c.bundle - {English}
    decreases |ms|
  {
    if ms != [] {
      AddMessagesOthers(AddMessage(c, ms[0]), ms[1..]);
    }
  }

  // ---------------------------------------------------------------------------
  // Loading a directory

  /** The error an entry that could not be opened or decoded gives. */
  function EntryError(e: DirEntry): LoadError
    requires !e.data.Decoded?
  {
    if e.data.OpenFailed? then OpenError(e.name) else DecodeError(e.name)
  }

  /** LoadLocaleFiles over a listing: records of ".json" files are registered file by file; the first failure stops it. */
  function LoadEntries(c: Catalog, entries: seq<DirEntry>): (r: (Catalog, Outcome))
    ensures r.1.Fail? ==> exists k :: 0 <= k < |entries| && IsJson(entries[k].name) && !entries[k].data.Decoded?
                                   && r.1.error == EntryError(entries[k])
    ensures InStep(c) ==> InStep(r.0)
    decreases |entries|
  {
    if entries == [] then (c, Pass)
    else if !IsJson(entries[0].name) then LoadEntries(c, entries[1..])
    else if !entries[0].data.Decoded? then (c, Fail(EntryError(entries[0])))
    else LoadEntries(AddMessages(c, entries[0].data.messages), entries[1..])
  }

  function LoadDirectory(c: Catalog, dir: Directory): (r: (Catalog, Outcome))
    ensures r.1 == Fail(ReadDirError) <==> dir.Unreadable?
    ensures dir.Unreadable? ==> r.0 == c
    ensures InStep(c) ==> InStep(r.0)
  {
    match dir
    case Unreadable => (c, Fail(ReadDirError))
    case Listing(entries) => LoadEntries(c, entries)
  }

  /** Every ".json" entry of the listing opens and decodes. */
  predicate AllJsonDecode(entries: seq<DirEntry>) {
    forall i :: 0 <= i < |entries| && IsJson(entries[i].name) ==> entries[i].data.Decoded?
  }

  /** The records of all ".json" entries that decode, in listing order. */
  function JsonMessages(entries: seq<DirEntry>): seq<Message>
    decreases |entries|
  {
    if entries == [] then []
    else (if IsJson(entries[0].name) && entries[0].data.Decoded? then entries[0].data.messages else [])
         + JsonMessages(entries[1..])
  }

  /** When every ".json" entry decodes, the load succeeds and registers all their records in listing order. */
  lemma {:induction false} LoadSucceeds(c: Catalog, entries: seq<DirEntry>)
    requires AllJsonDecode(entries)
    ensures LoadEntries(c, entries) == (AddMessages(c, JsonMessages(entries)), Pass)
    decreases |entries|
  {
    if entries != [] {
      var e := entries[0];
      assert AllJsonDecode(entries[1..]) by {
        forall i | 0 <= i < |entries[1..]| && IsJson(entries[1..][i].name)
          ensures entries[1..][i].data.Decoded?
        {
          assert entries[1..][i] == entries[i + 1];
        }
      }
      if IsJson(e.name) {
        LoadSucceeds(AddMessages(c, e.data.messages), entries[1..]);
        AddMessagesConcat(c, e.data.messages, JsonMessages(entries[1..]));
      } else {
        LoadSucceeds(c, entries[1..]);
        assert JsonMessages(entries) == JsonMessages(entries[1..]);
      }
    }
  }

  /**
   * When entry `k` is the first ".json" entry that fails to open or decode, the
   * load returns its error, having registered the records of the ".json"
   * entries before it (they are not rolled back) and nothing after it.
   */
  lemma {:induction false} LoadStopsAtFirstFailure(c: Catalog, entries: seq<DirEntry>, k: nat)
    requires k < |entries| && IsJson(entries[k].name) && !entries[k].data.Decoded?
    requires AllJsonDecode(entries[..k])
    ensures LoadEntries(c, entries) == (AddMessages(c, JsonMessages(entries[..k])), Fail(EntryError(entries[k])))
    decreases k
  {
    var e := entries[0];
    if k == 0 {
      assert entries[..0] == [];
    } else {
      var tail := entries[1..][..k - 1];
      assert tail == entries[..k][1..];
      assert entries[1..][k - 1] == entries[k];
      assert AllJsonDecode(tail) by {
        forall i | 0 <= i < |tail| && IsJson(tail[i].name)
          ensures tail[i].data.Decoded?
        {
          assert tail[i] == entries[..k][i + 1];
        }
      }
      assert entries[..k][0] == e;
      var rest := JsonMessages(tail);
      if IsJson(e.name) {
        assert JsonMessages(entries[..k]) == e.data.messages + rest;
        LoadStopsAtFirstFailure(AddMessages(c, e.data.messages), entries[1..], k - 1);
        AddMessagesConcat(c, e.data.messages, rest);
      } else {
        assert JsonMessages(entries[..k]) == [] + rest == rest;
        LoadStopsAtFirstFailure(c, entries[1..], k - 1);
      }
    }
  }

  /** A load succeeds exactly when every ".json" entry opens and decodes. */
  lemma {:induction false} LoadPassesIffAllJsonDecode(c: Catalog, entries: seq<DirEntry>)
    ensures LoadEntries(c, entries).1 == Pass <==> AllJsonDecode(entries)
  {
    if AllJsonDecode(entries) {
      LoadSucceeds(c, entries);
    } else {
      var k :| 0 <= k < |entries| && IsJson(entries[k].name) && !entries[k].data.Decoded?;
      FirstFailure(entries, k);
      var first: nat :| first < |entries| && IsJson(entries[first].name) && !entries[first].data.Decoded?
                   && AllJsonDecode(entries[..first]);
      LoadStopsAtFirstFailure(c, entries, first);
    }
  }

  /** A listing with a failing ".json" entry has a first one. */
  lemma {:induction false} FirstFailure(entries: seq<DirEntry>, k: nat)
    requires k < |entries| && IsJson(entries[k].name) && !entries[k].data.Decoded?
    ensures exists first: nat :: first < |entries| && IsJson(entries[first].name) && !entries[first].data.Decoded?
                            && AllJsonDecode(entries[..first])
    decreases k
  {
    if !AllJsonDecode(entries[..k]) {
      var j :| 0 <= j < k && IsJson(entries[..k][j].name) && !entries[..k][j].data.Decoded?;
      FirstFailure(entries, j);
    }
  }

  /**
   * After a successful load every id of every ".json" record is in the trie
   * and has an English text, that of its last record.
   */
  lemma SuccessfulLoadStoresEveryId(c: Catalog, entries: seq<DirEntry>)
    requires LoadEntries(c, entries).1 == Pass
    ensures LoadEntries(c, entries).0.keys == c.keys + Ids(JsonMessages(entries))
    ensures EnglishMessages(LoadEntries(c, entries).0.bundle) == EnglishMessages(c.bundle) + MessageMap(JsonMessages(entries))
  {
    LoadPassesIffAllJsonDecode(c, entries);
    LoadSucceeds(c, entries);
    AddMessagesEffect(c, JsonMessages(entries));
  }

  /** A load never removes an id, and adds only ids of records of ".json" entries. */
  lemma {:induction false} LoadKeysBetween(c: Catalog, entries: seq<DirEntry>)
    ensures c.keys <= LoadEntries(c, entries).0.keys <= c.keys + Ids(JsonMessages(entries))
    ensures LoadEntries(c, entries).0.bundle - {English} == c.bundle - {English}
    decreases |entries|
  {
    if entries != [] {
      var e := entries[0];
      var tail := JsonMessages(entries[1..]);
      if IsJson(e.name) && e.data.Decoded? {
        AddMessagesEffect(c, e.data.messages);
        LoadKeysBetween(AddMessages(c, e.data.messages), entries[1..]);
        assert Ids(e.data.messages + tail) == Ids(e.data.messages) + Ids(tail);
      } else {
        LoadKeysBetween(c, entries[1..]);
      }
    }
  }

  /** Loading into an empty catalog keeps no id that the directory's ".json" records do not carry. */
  lemma ReloadForgetsOldKeys(dir: Directory)
    ensures dir.Unreadable? ==> LoadDirectory(EmptyCatalog, dir).0 == EmptyCatalog
    ensures dir.Listing? ==> LoadDirectory(EmptyCatalog, dir).0.keys <= Ids(JsonMessages(dir.entries))
  {
    if dir.Listing? {
      LoadKeysBetween(EmptyCatalog, dir.entries);
    }
  }

  // ---------------------------------------------------------------------------
  // Requests

  /** LocalizationMiddleware's choice of language: the Accept-Language header as given, or "en" when it is empty. */
  function RequestLanguage(acceptLanguage: string): (lang: string)
    ensures acceptLanguage == [] ==> lang == English
    ensures acceptLanguage != [] ==> lang == acceptLanguage
  {
    if acceptLanguage == [] then English else acceptLanguage
  }

  /** One entry per given id, holding what the localizer renders for it. */
  method LocalizeStrings(localize: string -> string, messageIDs: seq<string>) returns (localized: map<string, string>)
    ensures localized.Keys == Elements(messageIDs)
    ensures forall id :: id in localized ==> localized[id] == localize(id)
  {
    localized := map[];
    for k := 0 to |messageIDs|
      invariant localized.Keys == Elements(messageIDs[..k])
      invariant forall id :: id in localized ==> localized[id] == localize(id)
    {
      assert messageIDs[..k + 1] == messageIDs[..k] + [messageIDs[k]];
      localized := localized[messageIDs[k] := localize(messageIDs[k])];
    }
    assert messageIDs[..|messageIDs|] == messageIDs;
  }

  // ---------------------------------------------------------------------------
  // The package state

  class LocaleState {
    var trie: Trie
    var bundle: Bundle

    /** The trie is well formed, and its ids are exactly the ids with an English text. */
    ghost predicate Valid()
      reads this, trie
    {
      trie.Valid() && InStep(Snapshot())
    }

    /** The ids in the trie and the bundle, as one value. */
    ghost function Snapshot(): Catalog
      reads this, trie
    {
      Catalog(trie.Keys, bundle)
    }

    /** An empty bundle and an empty trie. */
    constructor ()
      ensures Valid() && fresh(trie) && Snapshot() == EmptyCatalog
    {
      bundle := map[];
      trie := new Trie();
    }

    /**
     * Replaces the bundle and the trie with empty ones, then loads the
     * directory; a load error is only logged, so whatever was loaded before it
     * stays.
     */
    method InitLocalization(dir: Directory)
      modifies this
      ensures Valid() && fresh(trie)
      ensures Snapshot() == LoadDirectory(EmptyCatalog, dir).0
    {
      bundle := map[];
      trie := new Trie();
      var _ := LoadLocaleFiles(dir);
    }

    /**
     * Goes through the listing in order; every ".json" entry is opened and
     * decoded, and each of its records is inserted into the trie and
     * registered under English. The first entry that fails ends the load with
     * that entry's error; what was registered before stays.
     */
    method LoadLocaleFiles(dir: Directory) returns (result: Outcome)
      requires Valid()
      modifies this, trie
      ensures Valid() && trie == old(trie)
      ensures (Snapshot(), result) == LoadDirectory(old(Snapshot()), dir)
    {
      if dir.Unreadable? {
        return Fail(ReadDirError);
      }
      var files := dir.entries;
      ghost var start := Snapshot();
      var i := 0;
      while i < |files|
        invariant 0 <= i <= |files|
        invariant Valid() && trie == old(trie)
        invariant LoadEntries(start, files) == LoadEntries(Snapshot(), files[i..])
      {
        var f := files[i];
        assert files[i..][0] == f && files[i..][1..] == files[i + 1..];
        if IsJson(f.name) {
          if f.data.OpenFailed? {
            return Fail(OpenError(f.name));
          }
          if f.data.DecodeFailed? {
            return Fail(DecodeError(f.name));
          }
          RegisterFile(f.data.messages);
        }
        i := i + 1;
      }
      return Pass;
    }

    /** Inserts each record's id into the trie and registers its text under English, in order. */
    method RegisterFile(messages: seq<Message>)
      requires Valid()
      modifies this, trie
      ensures Valid() && trie == old(trie)
      ensures Snapshot() == AddMessages(old(Snapshot()), messages)
    {
      ghost var start := Snapshot();
      for j := 0 to |messages|
        invariant Valid() && trie == old(trie)
        invariant AddMessages(start, messages) == AddMessages(Snapshot(), messages[j..])
      {
        var message := messages[j];
        assert messages[j..][0] == message && messages[j..][1..] == messages[j + 1..];
        trie.Insert(message.id);
        bundle := RegisterEnglish(bundle, message);
      }
    }

    /** One entry per id in the trie that starts with `partialID`, holding what the localizer renders for it. */
    method LocalizePrefixStrings(localize: string -> string, partialID: string) returns (localized: map<string, string>)
      requires Valid()
      ensures localized.Keys == Matches(trie.Keys, partialID)
      ensures forall id :: id in localized ==> localized[id] == localize(id)
      ensures forall id :: id in localized ==> id in EnglishMessages(bundle)
    {
      var ids := trie.SearchPrefix(partialID);
      localized := LocalizeStrings(localize, ids);
    }
  }
}
