# Localization, alerts and validators of the ApolloMedTech middleware, in Dafny

This project models the parts of the middleware that hold their own logic,
and proves properties of that model.

- **The message-id trie** (`Tree`, from `localization/tree.go`). `Trie.Insert`
  walks a key rune by rune, creates missing children and marks the last node.
  `Trie.SearchPrefix` walks to the prefix's node and collects every marked key
  below it with `Trie.CollectAllKeys`. The Go nodes are heap objects linked by
  pointers. Here they are an arena: a sequence inside the `Trie` object, with
  child pointers as indices. Ghost state labels every node with the string that
  leads to it and records the set of inserted keys. The proofs show:
  - a search returns exactly the inserted keys that start with the prefix;
  - a search returns no duplicates;
  - a search returns nothing when the prefix's path is missing;
  - a search changes nothing;
  - inserting a key adds exactly that key;
  - inserting a key that is already stored changes no node.
- **Catalog loading and lookups** (`Localization`, from
  `localization/localization.go`). The package globals `bundle` and `trie` are
  the two fields of one `LocaleState` object, changed in place. Its invariant
  says the trie holds exactly the ids that have an English text, since the
  code updates both for each record. The go-i18n bundle is a map from
  language tag to a map from message id to its `Other` text. The locale
  directory is given already listed and decoded. A successful load is proved
  equal to registering every record of the `.json` entries in listing order.
  A failed load is proved to stop at the first failing `.json` entry, keeping
  what the earlier entries registered. Every record is registered under
  English, and no other language is touched.
- **The session alert list** (`AlertManager`, from
  `alertManager/AlertManager.go` and `alertManager/model.go`). The session is
  a map from key to stored value. `AddAlert` keeps at most `MaxAlerts` (10)
  alerts. It drops exactly the oldest one when full, appends the new one last
  and otherwise keeps order. A value of the wrong type reads as an error, and
  `AddAlert` then stores a list holding only the new alert. `ClearAlerts`
  deletes the key.
- **The validators** (`Utils`, from `utils/utils.go`), over Go byte strings.
  `ValidateNumeroUtente` accepts exactly nine digits. Because its check is
  `strconv.Atoi`, it also accepts a sign followed by eight digits.
  `ValidateDate` parses the layout `2006-01-02`, modelled as Go's `time.Parse`
  reads it, and compares the date with `now`, which is a parameter. The result
  is proved to be: accepted exactly when the date is a later calendar day than
  today's. The last range check is modelled as written, with `&&`, and is
  proved never to fire.

The model keeps these behaviours of the code:
- A failed load does not roll back what earlier files inserted.
- The Go globals become the two fields of one `LocaleState` object, changed in place.
- Records are flat `{id, other}` lists.
- The language is the raw `Accept-Language` value, or `"en"` when the header is
  empty. It is not matched against the loaded locales.
- Everything is registered under English, whichever file it came from.

## Model

| member | source | states |
|---|---|---|
| `Tree.Walk` | localization/tree.go:27-34 | following characters from a node either reaches a node of the trie or fails; the empty string stays on the node |
| `Tree.WalkSplit` | localization/tree.go:17-23 | walking `s + t` is walking `s` and then `t` from where `s` ended |
| `Tree.WalkLabel` | localization/tree.go:16-25 | in a well-formed trie the node a walk reaches is labelled by the start node's string followed by the walked string |
| `Tree.WalkGrows` | localization/tree.go:19-21 | a walk that succeeds keeps reaching the same node after nodes and edges are only added |
| `Tree.StoredIffWalk` | localization/tree.go:24 | a string is a stored key exactly when walking it from the root ends on a marked node |
| `Tree.ChildOnKeyPath` | localization/tree.go:29-32 | along a stored key, the node of each of its prefixes has the edge for the key's next character |
| `Tree.MarkedWhenStored` | localization/tree.go:41-42 | a node whose string is a stored key is marked |
| `Tree.AddLeafKeepsKeys` | localization/tree.go:19-21 | hanging a new unmarked child under a node keeps the trie well formed and stores the same keys |
| `Tree.MarkAddsKey` | localization/tree.go:24 | marking a node keeps the trie well formed and adds exactly that node's string to the stored keys |
| `Tree.MatchesChild` | localization/tree.go:44-45 | the keys under the child reached by `c` are the keys strictly longer than the prefix whose next character is `c` |
| `Tree.BelowUnion` | localization/tree.go:44-46 | the keys under a set of children are the union of the keys under each child |
| `Tree.MatchesAtNode` | localization/tree.go:40-47 | the keys starting with a node's string are that string when the node is marked, plus the keys under its children |
| `Tree.MatchesAfterInsert` | localization/tree.go:16-25 | after inserting a key, each search gains that key if the search prefix is a prefix of it, and nothing else changes: earlier keys stay findable, and re-inserting a stored key changes no search result |
| `Tree.NoDuplicatesConcat` | localization/tree.go:42-45 | two duplicate-free lists with disjoint elements concatenate into a duplicate-free list holding both sets |
| `Tree.Trie.constructor` | localization/tree.go:12-14 | a new trie is well formed and stores no key, so every search on it is empty |
| `Tree.Trie.Insert` | localization/tree.go:16-25 | the stored keys become the old ones plus the key; inserting a stored key leaves every node as it was |
| `Tree.Trie.SearchPrefix` | localization/tree.go:27-38 | the results are exactly the stored keys starting with the prefix, without duplicates; the result is empty when the prefix's path is missing; the trie is not modified |
| `Tree.Trie.CollectAllKeys` | localization/tree.go:40-47 | appends to the buffer, keeping what it held, exactly the stored keys at or below the node, each once |
| `Localization.ExtFrom` | localization/localization.go:49 | the extension found is empty or a suffix of the name that starts with a dot |
| `Localization.ExtFromShape` | localization/localization.go:49 | no byte of the name after the extension's leading dot is a dot or a slash, so the extension starts at the last dot of the final path element |
| `Localization.ExtFromLastDot` | localization/localization.go:49 | when no dot or slash follows a dot, the extension is the suffix from that dot |
| `Localization.Ext` | localization/localization.go:49 | the extension is empty or a dot-led suffix of the path, and no later byte of the path is a dot or a slash |
| `Localization.IsJson` | localization/localization.go:49 | an entry is loaded exactly when its name ends in ".json" |
| `Localization.JsonExtension` | localization/localization.go:49 | an entry counts as a locale file exactly when its name ends in ".json" |
| `Localization.MessageMap` | localization/localization.go:63-72 | the ids given a text by registering records are exactly the records' ids |
| `Localization.LastRecordWins` | localization/localization.go:68-71 | registering records in order leaves each id with the text of its last record |
| `Localization.AddMessagesConcat` | localization/localization.go:63-72 | registering two lists of records one after the other is registering their concatenation |
| `Localization.RegisterEnglish` | localization/localization.go:68-71 | registering one record sets its id's English text, replacing an older one, and changes no other language |
| `Localization.AddMessage` | localization/localization.go:63-72 | one record adds its id to the trie and gives it an English text, so the trie and the English ids stay in step |
| `Localization.AddMessages` | localization/localization.go:63-72 | registering records in order never removes an id and keeps the trie and the English ids in step |
| `Localization.LoadEntries` | localization/localization.go:48-75 | a failed load reports the open or decode error of a ".json" entry that failed; a load keeps the trie and the English ids in step |
| `Localization.LoadDirectory` | localization/localization.go:41-76 | the directory error is returned exactly when the directory cannot be read, and then nothing is loaded; a load keeps the trie and the English ids in step |
| `Localization.AddMessagesEffect` | localization/localization.go:63-72 | registering records inserts exactly their ids, gives each id under English the text of its last record, and changes no other language |
| `Localization.LoadSucceeds` | localization/localization.go:48-75 | when every ".json" entry opens and decodes, the load succeeds and registers the records of all ".json" entries in listing order; other entries are skipped |
| `Localization.LoadStopsAtFirstFailure` | localization/localization.go:52-61 | at the first ".json" entry that fails to open or decode, the load returns that entry's error, keeps what the earlier ".json" entries registered, and registers nothing after it |
| `Localization.LoadPassesIffAllJsonDecode` | localization/localization.go:48-75 | a load succeeds exactly when every ".json" entry opens and decodes |
| `Localization.SuccessfulLoadStoresEveryId` | localization/localization.go:63-72 | after a successful load every record id is in the trie and its English text is that of its last record |
| `Localization.LoadKeysBetween` | localization/localization.go:63-71 | a load never removes an id, adds only ids of ".json" records, and leaves every language other than English as it was |
| `Localization.ReloadForgetsOldKeys` | localization/localization.go:30-33 | loading into fresh state keeps no id the directory's ".json" records do not carry; an unreadable directory leaves the fresh state empty |
| `Localization.RequestLanguage` | localization/localization.go:100-103 | an empty Accept-Language header selects "en"; any other value is used unchanged |
| `Localization.LocalizeStrings` | localization/localization.go:122-128 | the map's keys are exactly the given ids, and each holds what the localizer renders for it |
| `Localization.LocaleState.constructor` | localization/localization.go:27-30 | the bundle and the trie start empty |
| `Localization.LocaleState.InitLocalization` | localization/localization.go:25-39 | the trie and the bundle are replaced by fresh empty ones and then loaded, so nothing from an earlier load survives; a load error only ends the load |
| `Localization.LocaleState.LoadLocaleFiles` | localization/localization.go:41-76 | the trie's keys, the bundle and the result are what the load of the directory gives from the state before; an unreadable directory returns its error and changes nothing |
| `Localization.LocaleState.RegisterFile` | localization/localization.go:63-72 | the object's state becomes that of registering the file's records, in order, from the state before |
| `Localization.LocaleState.LocalizePrefixStrings` | localization/localization.go:163-171 | the map's keys are exactly the trie's keys starting with the partial id, each holding what the localizer renders for it; every one of them has an English text |
| `AlertManager.Session.constructor` | alertManager/AlertManager.go:61-62 | the session store holds the given key-value pairs |
| `AlertManager.AlertsFromSession` | alertManager/AlertManager.go:60-73 | a missing or nil value reads as the empty list, a stored list as itself, and a value of another type as an error |
| `AlertManager.GetAlerts` | alertManager/AlertManager.go:49-58 | the stored list, or the empty list when there is none or the value has the wrong type |
| `AlertManager.AppendBounded` | alertManager/AlertManager.go:33-38 | the new alert comes last, after the newest of the old alerts in their order; one old alert is dropped exactly when there were already MaxAlerts or more; a list within MaxAlerts stays within it |
| `AlertManager.AddAlert` | alertManager/AlertManager.go:24-47 | the session's alert list becomes the bounded append of the alert to what GetAlerts read; no other key changes |
| `AlertManager.ClearAlerts` | alertManager/AlertManager.go:76-83 | the alert key is removed from the session and nothing else changes |
| `AlertManager.AddAlertThenGet` | alertManager/AlertManager.go:27-40 | after AddAlert, GetAlerts returns the bounded list with the new alert last, within MaxAlerts if it was before; after a wrong-typed value it returns only the new alert |
| `AlertManager.AddAlertDropsOldest` | alertManager/AlertManager.go:34-38 | with MaxAlerts or more alerts, AddAlert drops exactly the first (oldest) and appends |
| `AlertManager.AddAlertAppends` | alertManager/AlertManager.go:34-38 | with fewer than MaxAlerts alerts, AddAlert keeps them all and appends |
| `AlertManager.ClearAlertsThenGet` | alertManager/AlertManager.go:76-79 | after ClearAlerts, GetAlerts returns the empty list |
| `Utils.ValidateNumeroUtente` | utils/utils.go:12-29 | the empty input is "missing"; a non-empty input of any byte length but 9 is a length error, checked before digits; a 9-byte input Atoi rejects is "only numbers" |
| `Utils.AtoiAccepts` | utils/utils.go:24 | strconv.Atoi's syntax: one or more digits, or a '+' or '-' followed by one or more digits |
| `Utils.NumeroUtenteAccepted` | utils/utils.go:19-28 | accepted exactly when nine digits, or a '+' or '-' followed by eight digits |
| `Utils.LastDayOfMonth` | utils/utils.go:62-67 | the day before the first of the next month is the Gregorian length of the month, leap-year February included |
| `Utils.ParseDate` | utils/utils.go:40-46 | a parsed date is a valid calendar date with a four-digit year, and the input is exactly its "YYYY-MM-DD" form |
| `Utils.ParseFormatDate` | utils/utils.go:40-46 | every valid date is parsed back from its "YYYY-MM-DD" form |
| `Utils.ValidateDate` | utils/utils.go:32-76 | empty input is "empty"; text the layout rejects is the format error; a date on or before today's is "before current date"; otherwise valid; the out-of-range error never occurs |
| `Utils.ValidateFormattedDate` | utils/utils.go:48-53 | a date in the layout is accepted exactly when it is a later calendar day than today's |

## Left out

- Node pointers: the trie's nodes are an arena of values with index links, not heap objects. Nothing in the Go code shares a node, so no aliasing is lost.
- Map iteration order in `collectAllKeys` is a nondeterministic choice of the next child. Search results are specified as a duplicate-free list whose elements form a given set; the order is not specified.
- Keys are sequences of runes. Go's `range` over a string that is not valid UTF-8 turns each bad byte into U+FFFD. That decoding is not modelled.
- `LocalizePlural` and `LocalizeDate`: their behaviour is go-i18n's plural selection and template execution, which are not part of this model.
- `GetLocalizer`, `AlertMiddleware` and the gin context: request plumbing with no logic of its own.
- go-i18n's `Localizer` and `MustLocalize`: rendering a message is a total function parameter of `LocalizeStrings` and `LocalizePrefixStrings`. Its panic on a missing id and its language matching are not modelled.
- `RegisterEnglish`: stores a record's `Other` text as given. go-i18n stores no template for a record without any text; the model keeps the empty text instead.
- The filesystem and JSON decoding: `os.ReadDir`, `os.Open` and the JSON decoder are replaced by a listing given in the order `os.ReadDir` returns it. Each entry has a name and an open failure, a decode failure or the decoded records. `defer file.Close()` and logging are left out.
- Concurrency: the Go globals have no locking, and the model is sequential.
- `session.Save()` and its logged errors: saving the session is I/O, and a failure changes nothing the handlers see.
- Session keys are strings. A stored value is an alert list, nil, or a value of some other Go type; nothing more is modelled about other types.
- `AtoiAccepts`: `strconv.Atoi`'s syntax without its overflow check. Overflow cannot happen for the 9-byte inputs that reach it.
- `ValidateDate`: `now` is a parameter given as a UTC date and nanosecond of day. Time zones and the monotonic clock reading are left out.
- `ParseDate`: `time.Parse` only as the layout `2006-01-02` uses it, with its error messages merged into one format error.
- Logging (`logrus`) is left out everywhere.
