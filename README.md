# translationStudio core, modelled in Dafny

This project models the sequential core of the translationStudio Android
app:

- **Peer-to-peer client service** (`ClientService`): the handshake, routing of
  encrypted lines, dispatch of peer commands, the archive download loop, and
  the server thread's read loop and clean-up.
- **Network service** (`NetworkService`): the peer registry, subnet scanning,
  the broadcast address and the file-socket notification.
- **Indexer database** (`Indexer`): the link, catalog and file tables, the
  recursive upsert and lookup of paths, cascading deletes and directory
  listings.
- **Review-mode adapter** (`ReviewMode`): item kinds, highlighting, the search
  filter, verse-marker checks and verse-marker placement.
- **View-mode adapter** (`ViewMode`): the visible-window estimate, building the
  list items, the chapter of a section and the tab search.
- **Project sharing** (`ProjectSharing`): legacy archive-name parsing,
  per-project choices in the library listing, and the stale-export clean-up.

`JavaLang` holds the parts of `java.lang` whose exact behaviour matters:
`String.split` dropping trailing empty fields, `trim`, ASCII `toLowerCase`,
32-bit wrap-around, truncating division and decimal formatting.

Objects whose fields the source updates in place are classes:

- `Peer` and `Service` in `NetworkService`;
- `Client` in `ClientService`;
- `IndexerDb` in `Indexer`;
- `ListItem` and `ReviewAdapter` in `ReviewMode`;
- `ViewModeAdapter` in `ViewMode`.

Each of their methods is proved against pure functions of the old state. The
properties are proved as lemmas about those functions.

Collaborators whose code is not part of this model are parameters. They are
either fields of the `Env`, `Library` and `Project` records or plain function
arguments:

- RSA encryption and decryption;
- `StringUtilities.chunk`, `PeerCommand.get`;
- JSON parsing;
- `SlugSorter`, `ResourceContainer` and the translation loaders;
- host reachability, the verse regex matches, `Project.GLOBAL_PROJECT_SLUG`.

Paths below are relative to the repository root.

## Model

| member | source | states |
|---|---|---|
| ClientService.Wire | app/src/main/java/com/door43/translationstudio/service/clientService.java:132-146 | the line sent is the message itself to a non-secure peer, the exception message when the stored key does not parse, and otherwise the message encrypted with the stored key |
| ClientService.Send | app/src/main/java/com/door43/translationstudio/service/clientService.java:132-146 | at most one line is written, and one is written exactly when a connection for the peer exists |
| ClientService.Deliver | app/src/main/java/com/door43/translationstudio/service/clientService.java:143-145 | only the peer's own connection log grows, by exactly the lines sent; every other connection is unchanged |
| ClientService.Emit | app/src/main/java/com/door43/translationstudio/service/clientService.java:72-77 | a callback is delivered exactly when a listener is set, and at most once |
| ClientService.SecureLineLeavesPeer | app/src/main/java/com/door43/translationstudio/service/clientService.java:174-186 | a line from a secure peer never changes the peer; a line that fails to decrypt yields nothing but one decryption-error callback |
| ClientService.InsecureLineIsHandshake | app/src/main/java/com/door43/translationstudio/service/clientService.java:174-186 | every line from a non-secure peer is handled by the handshake |
| ClientService.PublicKeyHandshake | app/src/main/java/com/door43/translationstudio/service/clientService.java:193-206 | a public-key line stores the key, sets waiting to false and the control text, makes the peer secure, leaves other keys alone, writes nothing and fires one connection-changed callback |
| ClientService.OkHandshake | app/src/main/java/com/door43/translationstudio/service/clientService.java:207-212 | an OK line writes exactly one line, the own public key after the public-key tag, in plain text, and changes nothing else |
| ClientService.UnknownHandshake | app/src/main/java/com/door43/translationstudio/service/clientService.java:213-216 | any other handshake line writes one invalid-request line when connected and changes nothing else |
| ClientService.UnknownCommand | app/src/main/java/com/door43/translationstudio/service/clientService.java:577-587 | an unknown command writes one invalid-request line and nothing else; an InvalidRequest command yields only an error callback |
| ClientService.DescriptorValidation | app/src/main/java/com/door43/translationstudio/service/clientService.java:227-254 | a transfer is opened iff the descriptor parses and has port, size and name; otherwise exactly one error callback fires when a listener is set; the peer and the writes are untouched |
| ClientService.SecureIsFinal | app/src/main/java/com/door43/translationstudio/service/clientService.java:174-202 | once a session has made the peer secure, later lines leave the peer state as it is |
| ClientService.SecureIsMonotone | app/src/main/java/com/door43/translationstudio/service/clientService.java:174-202 | a secure peer stays exactly as it is through any sequence of lines |
| ClientService.ProgressLog | app/src/main/java/com/door43/translationstudio/service/clientService.java:279-286 | one progress value is recorded per chunk read |
| ClientService.TotalOfIsSum | app/src/main/java/com/door43/translationstudio/service/clientService.java:279-281 | the 32-bit running total equals the true sum of the chunk sizes while that sum fits in an int |
| ClientService.SumPrefixBounded | app/src/main/java/com/door43/translationstudio/service/clientService.java:279-281 | every running total of positive chunk sizes lies between 0 and the full sum |
| ClientService.ProgressLogAt | app/src/main/java/com/door43/translationstudio/service/clientService.java:279-282 | the i-th recorded progress is computed from the running total after chunk i |
| ClientService.ProgressIsWholePercent | app/src/main/java/com/door43/translationstudio/service/clientService.java:279-282 | every recorded progress is (total / size) * 100 under integer division: a non-negative multiple of 100 that is 0 while the total is below the size |
| ClientService.HalfwayShowsNoProgress | app/src/main/java/com/door43/translationstudio/service/clientService.java:281 | reading 100 bytes in two halves records progress 0 and then 100 |
| ClientService.PercentDone | app/src/main/java/com/door43/translationstudio/service/clientService.java:281 | the intended progress lies in 0..100, is 100 exactly when everything arrived, and is the received share of the size rounded down |
| ClientService.PercentDoneGrows | app/src/main/java/com/door43/translationstudio/service/clientService.java:281 | the intended progress never decreases as more bytes arrive |
| ClientService.WholePercent | app/src/main/java/com/door43/translationstudio/service/clientService.java:282 | the progress formula is a non-negative multiple of 100, and 0 while the total is below the size |
| ClientService.Changes | app/src/main/java/com/door43/translationstudio/service/clientService.java:283-285 | one connection-changed callback per chunk, when a listener is set |
| ClientService.SessionStaysThrown | app/src/main/java/com/door43/translationstudio/service/clientService.java:645-652 | once a line has thrown, the read loop is over and later lines change nothing |
| ClientService.Client.constructor | app/src/main/java/com/door43/translationstudio/service/clientService.java:41-49 | no listener, no connections, no keys, not running |
| ClientService.Client.Notify | app/src/main/java/com/door43/translationstudio/service/clientService.java:183-185 | a callback is appended to the event log exactly when a listener is set |
| ClientService.Client.SetOnClientEventListener | app/src/main/java/com/door43/translationstudio/service/clientService.java:72-77 | the listener is stored, and a service-ready callback fires iff the service runs and the listener is present |
| ClientService.Client.StopService | app/src/main/java/com/door43/translationstudio/service/clientService.java:113-120 | every connection is closed, none is removed, and the service is no longer running |
| ClientService.Client.OnStartCommand | app/src/main/java/com/door43/translationstudio/service/clientService.java:80-96 | with both key extras it stores the keys, runs and reports ready (sticky); a private key of the wrong type throws and changes nothing; without the extras it stops the service |
| ClientService.Client.SendMessage | app/src/main/java/com/door43/translationstudio/service/clientService.java:132-146 | the connection table becomes Deliver of the line given by Send and Wire |
| ClientService.Client.RequestProjectList | app/src/main/java/com/door43/translationstudio/service/clientService.java:153-159 | sends the project-list tag followed by the JSON array of the preferred languages |
| ClientService.Client.RequestProjectArchive | app/src/main/java/com/door43/translationstudio/service/clientService.java:161-163 | sends the project-archive tag followed by the languages JSON |
| ClientService.Client.RequestTargetTranslation | app/src/main/java/com/door43/translationstudio/service/clientService.java:165-167 | sends the target-translation tag followed by the slug |
| ClientService.Client.Handshake | app/src/main/java/com/door43/translationstudio/service/clientService.java:193-217 | peer state, writes and callbacks are exactly those of the handshake step |
| ClientService.Client.ReceiveDescriptor | app/src/main/java/com/door43/translationstudio/service/clientService.java:227-254 | callbacks and opened transfers are exactly those of the descriptor step; nothing is written |
| ClientService.Client.OnCommandReceived | app/src/main/java/com/door43/translationstudio/service/clientService.java:225-587 | writes, callbacks and transfers are exactly those of the command step |
| ClientService.Client.OnMessageReceived | app/src/main/java/com/door43/translationstudio/service/clientService.java:174-186 | peer state, writes, callbacks and transfers are exactly those of the receive step |
| ClientService.Client.ServeLines | app/src/main/java/com/door43/translationstudio/service/clientService.java:645-652 | reading the lines in order gives the peer, writes, callbacks and transfers of the whole session |
| ClientService.Client.RunServerThread | app/src/main/java/com/door43/translationstudio/service/clientService.java:623-663 | a failed connect reports one error and changes nothing else; otherwise the session runs, and at its end the connection and the peer are removed and a connection-lost callback fires, unless a line threw |
| ClientService.Client.ConnectToServer | app/src/main/java/com/door43/translationstudio/service/clientService.java:103-108 | a server thread starts iff no connection to that address exists; otherwise nothing changes. A failed connect reports an error and changes nothing else; a connected session leaves the peer, transfers, events and connection table as the session over the input lines determines, dropping the connection and the peer when the session ends |
| ClientService.Client.CopyStream | app/src/main/java/com/door43/translationstudio/service/clientService.java:276-290 | records the progress log of the chunk sizes, one callback per chunk, and progress 0 at the end; a zero 32-bit size throws on the first chunk |
| ClientService.Client.ReceiveArchive | app/src/main/java/com/door43/translationstudio/service/clientService.java:266-346 | a failed setup reports one download error; otherwise the download loop and the import run; the temporary file is deleted unless the loop threw |
| NetworkService.Peer.constructor | app/src/main/java/com/door43/translationstudio/network/Service.java:114-122 | a new peer is not secure, has an empty key store and has not been touched |
| NetworkService.Peer.Touch | app/src/main/java/com/door43/translationstudio/network/Service.java:119 | the touch count grows by one |
| NetworkService.Service.constructor | app/src/main/java/com/door43/translationstudio/network/Service.java:25 | the registry starts empty |
| NetworkService.Service.AddPeer | app/src/main/java/com/door43/translationstudio/network/Service.java:114-122 | true iff the address was unknown, and then the peer is stored; otherwise the stored peer is kept, not replaced, including its security flag and key store, and touched once |
| NetworkService.Service.RemovePeer | app/src/main/java/com/door43/translationstudio/network/Service.java:128-132 | the registry loses exactly that address |
| NetworkService.Service.GetPeers | app/src/main/java/com/door43/translationstudio/network/Service.java:138-140 | a list of exactly the stored peers, each once |
| NetworkService.Candidates | app/src/main/java/com/door43/translationstudio/network/Service.java:95-96 | the candidates are prefix.1 to prefix.253, in ascending order |
| NetworkService.ReachableOnesSnoc | app/src/main/java/com/door43/translationstudio/network/Service.java:95-105 | scanning one more host appends it iff it is reachable |
| NetworkService.ReachableOnesIsSubset | app/src/main/java/com/door43/translationstudio/network/Service.java:95-105 | the result is no longer than the input and holds exactly its reachable hosts |
| NetworkService.CheckHosts | app/src/main/java/com/door43/translationstudio/network/Service.java:82-107 | an empty list unless the trimmed subnet has 3 or 4 dot-separated pieces; otherwise the reachable candidates of the 3-piece prefix, in order |
| NetworkService.Sweep | app/src/main/java/com/door43/translationstudio/network/Service.java:95-105 | the probing loop returns the reachable candidates prefix.1 to prefix.253, in order |
| NetworkService.CheckHostsBound | app/src/main/java/com/door43/translationstudio/network/Service.java:95-105 | at most 253 hosts, each reachable and of the form prefix.k for 1 <= k <= 253 |
| NetworkService.PrefixOfFourPieces | app/src/main/java/com/door43/translationstudio/network/Service.java:88-91 | a four-piece address gives its first three pieces as the prefix |
| NetworkService.BroadcastBits | app/src/main/java/com/door43/translationstudio/network/Service.java:49 | the broadcast address has the address bits where the mask is 1 and ones where it is 0 |
| NetworkService.QuadAt | app/src/main/java/com/door43/translationstudio/network/Service.java:51-52 | the shift-and-mask formula gives byte k counted from the least significant end |
| NetworkService.GetBroadcastAddress | app/src/main/java/com/door43/translationstudio/network/Service.java:44-54 | a fresh four-byte array whose byte k is byte k of the broadcast address |
| NetworkService.QuadsRebuild | app/src/main/java/com/door43/translationstudio/network/Service.java:50-52 | the four bytes put back together give the broadcast address |
| NetworkService.SocketNotificationRoundTrip | app/src/main/java/com/door43/translationstudio/network/Service.java:147-150 | the notification is the file-socket tag followed directly by the port in decimal, and the port parses back from it |
| Indexer.RowIndex | app/src/main/java/com/door43/translationstudio/core/IndexerSQLiteHelper.java:178-186 | the index of the first row with that name, parent and hash, or the table length when there is none |
| Indexer.IdIndex | app/src/main/java/com/door43/translationstudio/core/IndexerSQLiteHelper.java:219-226 | the index of the first row with that id, or the table length |
| Indexer.Components | app/src/main/java/com/door43/translationstudio/core/IndexerSQLiteHelper.java:179-180 | a path splits into a first component without '/' and a shorter rest |
| Indexer.IdIndexOf | app/src/main/java/com/door43/translationstudio/core/IndexerSQLiteHelper.java:219-226 | in an id-ordered table, looking a row's id up finds that row |
| Indexer.SameShapeValid | app/src/main/java/com/door43/translationstudio/core/IndexerSQLiteHelper.java:188-196 | updating rows in place without changing ids or keys keeps the table valid |
| Indexer.AppendValid | app/src/main/java/com/door43/translationstudio/core/IndexerSQLiteHelper.java:197-206 | inserting a new row with the next id, a fresh key and an existing parent keeps the table valid |
| Indexer.PutUpdates | app/src/main/java/com/door43/translationstudio/core/IndexerSQLiteHelper.java:186-196 | an existing row is updated in place, is found again by its key, and keeps the table valid |
| Indexer.PutInserts | app/src/main/java/com/door43/translationstudio/core/IndexerSQLiteHelper.java:197-206 | a missing row is inserted with the next id, is found by its key, and keeps the table valid |
| Indexer.PutValid | app/src/main/java/com/door43/translationstudio/core/IndexerSQLiteHelper.java:178-210 | one upsert step keeps the table valid and either places the row or leaves the table unchanged when the parent is missing |
| Indexer.PutPlaces | app/src/main/java/com/door43/translationstudio/core/IndexerSQLiteHelper.java:178-210 | with an existing parent, the upsert step always places the row |
| Indexer.UpsertValid | app/src/main/java/com/door43/translationstudio/core/IndexerSQLiteHelper.java:178-210 | the recursive upsert of a path keeps the table valid and every existing row's id and key |
| Indexer.FindFileExists | app/src/main/java/com/door43/translationstudio/core/IndexerSQLiteHelper.java:295-316 | findFile returns 0 or the id of an existing row |
| Indexer.UpsertThenFind | app/src/main/java/com/door43/translationstudio/core/IndexerSQLiteHelper.java:166-210 | after upserting a clean path, finding that path with findFile gives a file row holding the contents |
| Indexer.ReplaceThenRead | app/src/main/java/com/door43/translationstudio/core/IndexerSQLiteHelper.java:166-234 | after replaceFile of a clean path, readFile of that path gives the contents |
| Indexer.SurvivorsMembers | app/src/main/java/com/door43/translationstudio/core/IndexerSQLiteHelper.java:242-247 | the cascade keeps exactly the rows not below a deleted row |
| Indexer.SurvivorsOrdered | app/src/main/java/com/door43/translationstudio/core/IndexerSQLiteHelper.java:242-247 | the cascade keeps the rows in id order with unique keys |
| Indexer.CascadeValid | app/src/main/java/com/door43/translationstudio/core/IndexerSQLiteHelper.java:242-247 | a cascading delete keeps the table valid |
| Indexer.DoomedIsHash | app/src/main/java/com/door43/translationstudio/core/IndexerSQLiteHelper.java:152-157 | deleting a catalog's files removes a row iff it has that hash |
| Indexer.DeleteCatalogSpares | app/src/main/java/com/door43/translationstudio/core/IndexerSQLiteHelper.java:152-157 | after deleting a catalog, exactly the rows of other hashes remain |
| Indexer.DeleteFileCascade | app/src/main/java/com/door43/translationstudio/core/IndexerSQLiteHelper.java:242-247 | deleting a file removes it and its children and keeps every row with a smaller id |
| Indexer.ReadLink | app/src/main/java/com/door43/translationstudio/core/IndexerSQLiteHelper.java:109-120 | the stored hash of the link, or null when no link has that path |
| Indexer.CountCatalogLinks | app/src/main/java/com/door43/translationstudio/core/IndexerSQLiteHelper.java:127-130 | the number of links naming the hash, which is 0 iff no link points at it |
| Indexer.ReplaceLinkReads | app/src/main/java/com/door43/translationstudio/core/IndexerSQLiteHelper.java:86-101 | after replaceLink the link reads back the new hash, other links are untouched, and re-storing the same hash changes nothing |
| Indexer.RemoveLinkCount | app/src/main/java/com/door43/translationstudio/core/IndexerSQLiteHelper.java:138-145 | removing a link lowers its hash's link count by exactly one |
| Indexer.Insert | app/src/main/java/com/door43/translationstudio/core/IndexerSQLiteHelper.java:261 | inserting into a sorted list keeps it sorted and adds the name once |
| Indexer.SortNames | app/src/main/java/com/door43/translationstudio/core/IndexerSQLiteHelper.java:261 | the cursor order by name is a sorted permutation of the child names |
| Indexer.ChildNamesMembers | app/src/main/java/com/door43/translationstudio/core/IndexerSQLiteHelper.java:261 | the query yields exactly the names of the rows whose parent is the directory |
| Indexer.LastIndexOf | app/src/main/java/com/door43/translationstudio/core/IndexerSQLiteHelper.java:266 | the last index of the character, or -1 |
| Indexer.Extension | app/src/main/java/com/door43/translationstudio/core/IndexerSQLiteHelper.java:266 | the extension is a suffix free of '.', '/' and '\\' that follows a '.' in the name, or ""; when the name has a last dot with no separator after it, the extension is exactly the text after that dot |
| Indexer.KeepExtSorted | app/src/main/java/com/door43/translationstudio/core/IndexerSQLiteHelper.java:264-277 | filtering a sorted listing keeps it sorted |
| Indexer.KeepExtMembers | app/src/main/java/com/door43/translationstudio/core/IndexerSQLiteHelper.java:264-277 | a name is kept iff its extension is not filtered |
| Indexer.ListDirResult | app/src/main/java/com/door43/translationstudio/core/IndexerSQLiteHelper.java:257-285 | the listing is sorted and holds exactly the children whose extension is not filtered |
| Indexer.IndexerDb.constructor | app/src/main/java/com/door43/translationstudio/core/IndexerSQLiteHelper.java:39-54 | empty link and catalog tables and a file table holding only the root row |
| Indexer.IndexerDb.ReplaceLink | app/src/main/java/com/door43/translationstudio/core/IndexerSQLiteHelper.java:86-101 | the link maps to the new hash |
| Indexer.IndexerDb.DeleteCatalog | app/src/main/java/com/door43/translationstudio/core/IndexerSQLiteHelper.java:152-157 | the catalog, its links and its files are removed |
| Indexer.IndexerDb.DeleteLink | app/src/main/java/com/door43/translationstudio/core/IndexerSQLiteHelper.java:138-145 | a missing link throws and changes nothing; otherwise the link goes, and the catalog follows when no other link uses its hash |
| Indexer.IndexerDb.ReplaceFileAt | app/src/main/java/com/door43/translationstudio/core/IndexerSQLiteHelper.java:178-210 | the table becomes the recursive upsert of the path under the parent |
| Indexer.IndexerDb.PutRow | app/src/main/java/com/door43/translationstudio/core/IndexerSQLiteHelper.java:181-209 | one upsert step, returning the row id or -1 |
| Indexer.IndexerDb.ReplaceFile | app/src/main/java/com/door43/translationstudio/core/IndexerSQLiteHelper.java:166-168 | the upsert from the root; a clean path reads back the contents |
| Indexer.IndexerDb.DeleteFile | app/src/main/java/com/door43/translationstudio/core/IndexerSQLiteHelper.java:242-247 | the cascade from the found file, or no change when it is not found |
| Indexer.IndexerDb.ListDir | app/src/main/java/com/door43/translationstudio/core/IndexerSQLiteHelper.java:257-285 | the filtered sorted listing of the found directory, or empty |
| Indexer.FilterNames | app/src/main/java/com/door43/translationstudio/core/IndexerSQLiteHelper.java:263-279 | the cursor loop keeps the names whose extension is not filtered |
| Indexer.IsFiltered | app/src/main/java/com/door43/translationstudio/core/IndexerSQLiteHelper.java:267-273 | skip iff the extension is among the filters |
| ReviewMode.ExactlyOneKind | app/src/main/java/com/door43/translationstudio/newui/translate/ReviewModeAdapter.java:1878-1896 | each item is exactly one of project title, chapter title, chapter reference or frame |
| ReviewMode.HighlightPanes | app/src/main/java/com/door43/translationstudio/newui/translate/ReviewModeAdapter.java:1911-1931 | setHighLighting sets only the chosen pane's flag; that pane's rendered text is dropped when the highlighting is turned on or was on |
| ReviewMode.ClearAllIdempotent | app/src/main/java/com/door43/translationstudio/newui/translate/ReviewModeAdapter.java:1901-1904 | clearing all highlighting twice is clearing once, and leaves both flags off |
| ReviewMode.PreparedKeepsView | app/src/main/java/com/door43/translationstudio/newui/translate/ReviewModeAdapter.java:2079-2102 | loading before a search changes only the plain texts |
| ReviewMode.SearchHighlights | app/src/main/java/com/door43/translationstudio/newui/translate/ReviewModeAdapter.java:2105-2111 | a matched item is highlighted in the searched pane only, an unmatched one in neither, and rendered text survives only in non-highlighted panes |
| ReviewMode.ListItem.constructor | app/src/main/java/com/door43/translationstudio/newui/translate/ReviewModeAdapter.java:1873-1876 | texts unset, no highlighting |
| ReviewMode.ListItem.SetHighLighting | app/src/main/java/com/door43/translationstudio/newui/translate/ReviewModeAdapter.java:1911-1931 | the state becomes Highlight of the old state |
| ReviewMode.ListItem.ClearAllHighLighting | app/src/main/java/com/door43/translationstudio/newui/translate/ReviewModeAdapter.java:1901-1904 | the state becomes ClearAll of the old state |
| ReviewMode.ListItem.LoadTranslations | app/src/main/java/com/door43/translationstudio/newui/translate/ReviewModeAdapter.java:1964-1994 | the source text is the chunk, and the target text is the project title, chapter title, chapter reference or frame body by item kind |
| ReviewMode.ListItem.Match | app/src/main/java/com/door43/translationstudio/newui/translate/ReviewModeAdapter.java:2079-2102 | matches iff the rendered or plain text of the searched pane, lower-cased and loaded first if missing, contains the lower-cased query |
| ReviewMode.Pick | app/src/main/java/com/door43/translationstudio/newui/translate/ReviewModeAdapter.java:2076-2107 | the picked list is no longer than the items |
| ReviewMode.PickUpToExtend | app/src/main/java/com/door43/translationstudio/newui/translate/ReviewModeAdapter.java:2076-2107 | flags past the prefix do not change what it picks |
| ReviewMode.PickUpToSnoc | app/src/main/java/com/door43/translationstudio/newui/translate/ReviewModeAdapter.java:2105-2107 | one more item is appended exactly when it matched |
| ReviewMode.PickUpToMembers | app/src/main/java/com/door43/translationstudio/newui/translate/ReviewModeAdapter.java:2076-2107 | a prefix picks exactly its flagged items |
| ReviewMode.PickMembers | app/src/main/java/com/door43/translationstudio/newui/translate/ReviewModeAdapter.java:2076-2107 | the filtered list holds exactly the matched items |
| ReviewMode.PickUpToWithin | app/src/main/java/com/door43/translationstudio/newui/translate/ReviewModeAdapter.java:2076-2107 | every picked item is one of the items |
| ReviewMode.SearchChanged | app/src/main/java/com/door43/translationstudio/newui/translate/ReviewModeAdapter.java:2135-2152 | the search changed iff the two strings differ once null is read as empty |
| ReviewMode.States | app/src/main/java/com/door43/translationstudio/newui/translate/ReviewModeAdapter.java:2070-2077 | the item states, pointwise |
| ReviewMode.ChunkSlugsAt | app/src/main/java/com/door43/translationstudio/newui/translate/ReviewModeAdapter.java:153-158 | the k-th item listed for a chapter carries the chapter's slug and its k-th chunk |
| ReviewMode.TocSlugsMembers | app/src/main/java/com/door43/translationstudio/newui/translate/ReviewModeAdapter.java:151-159 | a (chapter, chunk) pair is listed iff some chapter of the table of contents lists that chunk |
| ReviewMode.TocStartIsLast | app/src/main/java/com/door43/translationstudio/newui/translate/ReviewModeAdapter.java:150-157 | the start position is the last listed item with both starting slugs, or 0 when there is none (a null starting slug never matches) |
| ReviewMode.AddTocChapter | app/src/main/java/com/door43/translationstudio/newui/translate/ReviewModeAdapter.java:153-158 | one new unloaded item per chunk of the chapter, in order, with the start moved to the last chunk that matches the starting slugs |
| ReviewMode.BuildItems | app/src/main/java/com/door43/translationstudio/newui/translate/ReviewModeAdapter.java:149-159 | one distinct unloaded item per listed chunk, in table-of-contents order, and the start position of TocStartIsLast |
| ReviewMode.ReviewAdapter.constructor | app/src/main/java/com/door43/translationstudio/newui/translate/ReviewModeAdapter.java:124-137 | the items are built from the table of contents with the start position set, resources are open as asked, the shown list is empty, the markers were reset once, and a null search of the source pane is posted |
| ReviewMode.ReviewAdapter.SetSourceTranslation | app/src/main/java/com/door43/translationstudio/newui/translate/ReviewModeAdapter.java:139-171 | the items and start position come from the table of contents; then the shown list is emptied, the markers are reset once, and the current search is posted again |
| ReviewMode.ReviewAdapter.LoadToc | app/src/main/java/com/door43/translationstudio/newui/translate/ReviewModeAdapter.java:149-163 | the unfiltered and the shown list are both the items built from the table of contents |
| ReviewMode.ReviewAdapter.ClearScreenAndStartNewSearch | app/src/main/java/com/door43/translationstudio/newui/translate/ReviewModeAdapter.java:2002-2020 | the shown list is emptied, the markers are reset once, the busy indicator is raised for a non-empty query, and the search is queued |
| ReviewMode.ReviewAdapter.RunPostedSearch | app/src/main/java/com/door43/translationstudio/newui/translate/ReviewModeAdapter.java:2014-2019 | the oldest queued search leaves the queue; its pane is set and it is filtered as Filter states |
| ReviewMode.ReviewAdapter.Filter | app/src/main/java/com/door43/translationstudio/newui/translate/ReviewModeAdapter.java:2063-2128 | performFiltering followed by publishResults: the shown list is what the search filters, the query is remembered, the busy indicator is lowered, and the markers are reset iff the search changed |
| ReviewMode.ReviewAdapter.GetFocusedChunkSlug | app/src/main/java/com/door43/translationstudio/newui/translate/ReviewModeAdapter.java:231-236 | the chunk of the item at the position, or null out of range |
| ReviewMode.ReviewAdapter.GetFocusedChapterSlug | app/src/main/java/com/door43/translationstudio/newui/translate/ReviewModeAdapter.java:239-244 | the chapter of the item at the position, or null out of range |
| ReviewMode.ReviewAdapter.GetItemPosition | app/src/main/java/com/door43/translationstudio/newui/translate/ReviewModeAdapter.java:247-256 | the first frame item with that chapter and chunk, or -1 iff there is none |
| ReviewMode.ReviewAdapter.OpenResources | app/src/main/java/com/door43/translationstudio/newui/translate/ReviewModeAdapter.java:1762-1770 | resources are open; the layout is coordinated only when they were closed |
| ReviewMode.ReviewAdapter.CloseResources | app/src/main/java/com/door43/translationstudio/newui/translate/ReviewModeAdapter.java:1772-1780 | resources are closed; the layout is coordinated only when they were open |
| ReviewMode.ReviewAdapter.SetTargetSearch | app/src/main/java/com/door43/translationstudio/newui/translate/ReviewModeAdapter.java:2053-2056 | the searched pane is stored |
| ReviewMode.ReviewAdapter.PerformFiltering | app/src/main/java/com/door43/translationstudio/newui/translate/ReviewModeAdapter.java:2063-2117 | an empty query shows all items and clears their highlighting; otherwise the result is exactly the matching items in order, each item is matched and highlighted from its old state |
| ReviewMode.ReviewAdapter.PublishResults | app/src/main/java/com/door43/translationstudio/newui/translate/ReviewModeAdapter.java:2121-2128 | the filtered items are shown, the chapter markers are reset iff the search changed, the search is remembered and the busy indicator is lowered |
| ReviewMode.ReviewAdapter.UpdateChapterMarkers | app/src/main/java/com/door43/translationstudio/newui/translate/ReviewModeAdapter.java:2135-2152 | one marker reset iff the search changed |
| ReviewMode.ClearItems | app/src/main/java/com/door43/translationstudio/newui/translate/ReviewModeAdapter.java:2070-2072 | every item's highlighting is cleared |
| ReviewMode.FilterOne | app/src/main/java/com/door43/translationstudio/newui/translate/ReviewModeAdapter.java:2077-2111 | an item matches as MatchState says, and is then loaded and highlighted as AfterSearch says |
| ReviewMode.FilterStep | app/src/main/java/com/door43/translationstudio/newui/translate/ReviewModeAdapter.java:2077-2111 | one more item is searched and the earlier and later items keep their states |
| ReviewMode.FilterItems | app/src/main/java/com/door43/translationstudio/newui/translate/ReviewModeAdapter.java:2075-2114 | the result lists exactly the matching items in order, and every item is searched from its old state |
| ReviewMode.VersesInOrderIff | app/src/main/java/com/door43/translationstudio/newui/translate/ReviewModeAdapter.java:1050-1079 | the verse check passes iff the verses rise strictly from 0 and all lie in the chunk's range |
| ReviewMode.CheckVerseMarkers | app/src/main/java/com/door43/translationstudio/newui/translate/ReviewModeAdapter.java:1050-1079 | the loop reports the first duplicate, out-of-order or out-of-range verse |
| ReviewMode.ConfirmChecks | app/src/main/java/com/door43/translationstudio/newui/translate/ReviewModeAdapter.java:1025-1092 | a chunk is ready to commit iff it is non-empty, has no consecutive markers, and its verses are accepted; empty text and consecutive markers are reported first; a rejected verse set is reported as the first failing verse |
| ReviewMode.LastSpaceAtOrBefore | app/src/main/java/com/door43/translationstudio/newui/translate/ReviewModeAdapter.java:1575-1582 | the last whitespace at or before the offset, or -1 |
| ReviewMode.FirstSpaceIn | app/src/main/java/com/door43/translationstudio/newui/translate/ReviewModeAdapter.java:1590-1597 | the first whitespace in the range, or its end |
| ReviewMode.ClosestSpot | app/src/main/java/com/door43/translationstudio/newui/translate/ReviewModeAdapter.java:1572-1607 | `charAt` throws exactly when the offset is at or past the end of the text; otherwise a non-negative offset gives a spot inside the text |
| ReviewMode.DropAfterLastCharThrows | app/src/main/java/com/door43/translationstudio/newui/translate/ReviewModeAdapter.java:1572-1575 | a drop just after the last character, or into an empty text, throws |
| ReviewMode.ClosestSpotFixed | app/src/main/java/com/door43/translationstudio/newui/translate/ReviewModeAdapter.java:1572-1607 | with the end of the text allowed as a spot, every non-negative offset gives a spot in 0..length, and below the end it agrees with the source |
| ReviewMode.ClosestSpotTouchesSpace | app/src/main/java/com/door43/translationstudio/newui/translate/ReviewModeAdapter.java:1572-1607 | the spot is the offset itself or next to whitespace; at whitespace, or with none before, the offset is kept |
| ReviewMode.ClosestSpotIsNear | app/src/main/java/com/door43/translationstudio/newui/translate/ReviewModeAdapter.java:1572-1607 | the spot is no farther ahead than the whitespace behind is back |
| ReviewMode.ClosestSpotForVerseMarker | app/src/main/java/com/door43/translationstudio/newui/translate/ReviewModeAdapter.java:1572-1607 | the backward loop, including its `charAt` exception, and then the forward scan compute ClosestSpot for every offset |
| ReviewMode.ScanAhead | app/src/main/java/com/door43/translationstudio/newui/translate/ReviewModeAdapter.java:1589-1606 | the forward scan for whitespace finishes the spot that ClosestSpot describes |
| ViewMode.Clamp | app/src/main/java/com/door43/translationstudio/ui/translate/ViewModeAdapter.java:116-120 | the window is moved to start at 0 or later, keeping its width |
| ViewMode.NextWindowShape | app/src/main/java/com/door43/translationstudio/ui/translate/ViewModeAdapter.java:86-123 | the window starts at 0 or later; with no direction it spans k-1 on each side and the direction stays unknown; moving on keeps the direction and a window of k-1 ending or starting at the next position; turning back swaps the direction |
| ViewMode.UnknownStaysUnknown | app/src/main/java/com/door43/translationstudio/ui/translate/ViewModeAdapter.java:40-123 | from the initial unknown direction, no sequence of visits ever sets a direction |
| ViewMode.ChapterRows | app/src/main/java/com/door43/translationstudio/ui/translate/ViewModeAdapter.java:250-256 | one row per chunk of the chapter, in order |
| ViewMode.AllRowsMembers | app/src/main/java/com/door43/translationstudio/ui/translate/ViewModeAdapter.java:247-257 | a row is listed iff its chapter is listed and its chunk is among that chapter's sorted chunks |
| ViewMode.FirstStart | app/src/main/java/com/door43/translationstudio/ui/translate/ViewModeAdapter.java:251-254 | the index of the first starting row, or -1 when there is none |
| ViewMode.StartPosition | app/src/main/java/com/door43/translationstudio/ui/translate/ViewModeAdapter.java:239-254 | the start position is the first row of the starting chapter and chunk (any chunk when none is given), or 0 |
| ViewMode.FindTab | app/src/main/java/com/door43/translationstudio/ui/translate/ViewModeAdapter.java:384-404 | the result is a text view with that text and comes first in depth-first order; null iff no text view has that text |
| ViewMode.GetChapterSlug | app/src/main/java/com/door43/translationstudio/ui/translate/ViewModeAdapter.java:192-199 | the section's slug, or "" for a section out of range |
| ViewMode.ViewModeAdapter.constructor | app/src/main/java/com/door43/translationstudio/ui/translate/ViewModeAdapter.java:35-41 | no holders, start 0, position -1, direction unknown |
| ViewMode.ViewModeAdapter.OnCreateViewHolder | app/src/main/java/com/door43/translationstudio/ui/translate/ViewModeAdapter.java:59-63 | the new holder is registered at the end and returned |
| ViewMode.ViewModeAdapter.CalculateVisibleItems | app/src/main/java/com/door43/translationstudio/ui/translate/ViewModeAdapter.java:86-123 | returns {min, max} and the new direction given by NextWindow |
| ViewMode.ViewModeAdapter.InitializeListItems | app/src/main/java/com/door43/translationstudio/ui/translate/ViewModeAdapter.java:237-258 | no container gives empty lists; otherwise the sorted chapters and a row per sorted chunk; the start position at the first starting row, or 0 |
| ViewMode.AddChapter | app/src/main/java/com/door43/translationstudio/ui/translate/ViewModeAdapter.java:250-256 | the inner loop appends the chapter's rows and keeps the start position at the first starting row |
| ProjectSharing.GetTranslationArchiveInfo | app/src/main/java/com/door43/translationstudio/projects/ProjectSharing.java:262-273 | the info of the part before the first '_' (leading '/' removed) when it validates, with the global slug first; null otherwise; a name of '_' only throws |
| ProjectSharing.StripStepMakesNoProgress | app/src/main/java/com/door43/translationstudio/projects/ProjectSharing.java:266-268 | one pass of the strip loop leaves a name starting with '/' unchanged |
| ProjectSharing.StripAgreesWithoutSlash | app/src/main/java/com/door43/translationstudio/projects/ProjectSharing.java:266-268 | on names without a leading '/' the corrected strip changes nothing, as the source's loop does |
| ProjectSharing.ComplexNameIsValid | app/src/main/java/com/door43/translationstudio/projects/ProjectSharing.java:251-254 | the name an export gets from lower-case slugs is a valid archive name |
| ProjectSharing.ArchiveInfoRoundTrip | app/src/main/java/com/door43/translationstudio/projects/ProjectSharing.java:262-273 | an export's archive name reads back as its global slug, project and language |
| ProjectSharing.DirectionName | app/src/main/java/com/door43/translationstudio/projects/ProjectSharing.java:104-122 | "rtl" iff the direction is right-to-left, otherwise "ltr" |
| ProjectSharing.FirstAvailableIsFirst | app/src/main/java/com/door43/translationstudio/projects/ProjectSharing.java:78-84 | the chosen language belongs to the first preferred language the project has, and there is none iff the project has none of them |
| ProjectSharing.LibraryLanguage | app/src/main/java/com/door43/translationstudio/projects/ProjectSharing.java:76-85 | the first preferred language the project has, otherwise its selected source language |
| ProjectSharing.TargetRecords | app/src/main/java/com/door43/translationstudio/projects/ProjectSharing.java:113-124 | one record per active target language, in order, with its direction name |
| ProjectSharing.GenerateLibrary | app/src/main/java/com/door43/translationstudio/projects/ProjectSharing.java:66-131 | the library is LibraryOf the projects |
| ProjectSharing.LibraryOfConcat | app/src/main/java/com/door43/translationstudio/projects/ProjectSharing.java:69-130 | records do not depend on each other: a failed record does not affect the others, and order is kept |
| ProjectSharing.LibraryMembers | app/src/main/java/com/door43/translationstudio/projects/ProjectSharing.java:69-130 | a record is listed iff it is the record of a global project whose record did not fail |
| ProjectSharing.CurrentZipIsStale | app/src/main/java/com/door43/translationstudio/projects/ProjectSharing.java:724-734 | the clean-up test counts the current version's own zip file as stale |
| ProjectSharing.StaleFixedKeepsCurrent | app/src/main/java/com/door43/translationstudio/projects/ProjectSharing.java:724-734 | with the version compared without ".zip", the current directory and zip are kept and other versions' are deleted |
| ProjectSharing.FailedStays | app/src/main/java/com/door43/translationstudio/projects/ProjectSharing.java:729-735 | once the clean-up has thrown, later entries change nothing |
| ProjectSharing.CleanupDeletesStale | app/src/main/java/com/door43/translationstudio/projects/ProjectSharing.java:729-735 | every deleted entry is a stale entry of the list; without an exception exactly the stale entries are deleted |
| ProjectSharing.CleanExports | app/src/main/java/com/door43/translationstudio/projects/ProjectSharing.java:728-735 | the loop deletes as CleanupUpTo says, stopping at a name with a missing piece |
| JavaLang.Lower | app/src/main/java/com/door43/translationstudio/projects/ProjectSharing.java:252 | the ASCII stand-in for toLowerCase keeps the length and maps each of 'A'..'Z' to its lower-case letter, leaving every other character as it is |
| JavaLang.TrimLeft | app/src/main/java/com/door43/translationstudio/network/Service.java:88 | the suffix left after removing the leading characters up to ' ': everything removed is such a character and the result does not start with one |
| JavaLang.TrimRight | app/src/main/java/com/door43/translationstudio/network/Service.java:88 | the prefix left after removing the trailing characters up to ' ': everything removed is such a character and the result does not end with one |
| JavaLang.Trim | app/src/main/java/com/door43/translationstudio/network/Service.java:88 | trim returns the slice of the text that remains after removing the characters up to ' ' at both ends: everything removed is such a character, and the result neither starts nor ends with one |
| JavaLang.LTrimChar | app/src/main/java/com/door43/translationstudio/core/IndexerSQLiteHelper.java:179 | ltrim returns the suffix of the text left after removing copies of the character: everything removed is that character, and the result does not start with it |
| JavaLang.IndexOf | app/src/main/java/com/door43/translationstudio/projects/ProjectSharing.java:267 | the first position of the character, or the length of the text when it is absent (where String.indexOf would give -1) |
| JavaLang.Split2 | app/src/main/java/com/door43/translationstudio/core/IndexerSQLiteHelper.java:179 | split with limit 2 gives the part before the first delimiter and, when there is one, the rest after it |
| JavaLang.Wrap32 | app/src/main/java/com/door43/translationstudio/service/clientService.java:280-282 | an int result congruent to the true value mod 2^32, equal to it when it fits |
| JavaLang.JavaDiv | app/src/main/java/com/door43/translationstudio/service/clientService.java:282 | truncating division agrees with floor division on non-negative operands |
| JavaLang.IntToStringRoundTrip | app/src/main/java/com/door43/translationstudio/network/Service.java:149 | the decimal text of an int parses back to it |

## Left out

- Threads and sockets: `ServerThread` scheduling, `Connection` I/O and `openReadSocket` are not modelled. Each handler keeps only its sequential effect on the connection table, the peer key store, the security flag and the write and callback logs.
- RSA keys, `encryptMessage`/`decryptMessage`, `StringUtilities.chunk`/`ltrim`, `PeerCommand.get` and the `SocketMessages` constants are parameters, since their code is not part of this model. `ltrim(s, '/')` is taken to strip every leading '/'.
- The `PeerStatusKeys` names and the `Peer` class are not part of this model. The key names are local constants, and `Peer` keeps only the fields the core touches.
- JSON parsing and serialising are parameters. The library listing returns records rather than JSON text.
- `Translator.importArchive` is a parameter, and the temporary file is a flag.
- `Service.getIpAddress` and `isReachable` depend on the OS network state. Reachability is an input predicate.
- The SQLite engine is replaced by in-memory tables. The catalogs table is never inserted into by this file, so it starts empty. The foreign-key cascade is an id-ordered pass, because a child row always has a larger id than its parent.
- Indexer.ReplaceThenRead: requires a clean path and the root row. `replaceFile` stores path components untrimmed while `findFile` trims them, so a path with spaces next to '/' does not read back.
- Indexer.Extension: leaves out the Windows drive-letter check of `FilenameUtils.getExtension`, which is not part of this model.
- JavaLang.Lower: ASCII only; Unicode and locale-dependent lower-casing (which can change the length of the text) is not modelled.
- `CharSequence.equals` is content equality on rendered text.
- Android UI in the review adapter is not modelled: rendering, spans, dialogs, animations, drag events, undo/redo and managed tasks. The rendered texts are set by rendering and enter only as state.
- The verse-marker regex in `onConfirmChunk` is not modelled. Its matches are inputs: the verse numbers and whether consecutive markers occur.
- ViewMode.ViewModeAdapter.CalculateVisibleItems: the window ends use unbounded integers, so Java int overflow near 2^31 is not modelled.
- `onBindViewHolder` and `onVisiblePositionsChanged` are not modelled. They only pass the window to abstract rendering code.
- `SlugSorter` and `ResourceContainer` are parameters. `createListItem` is modelled as a (chapter, chunk) row.
- ViewMode.FindTab: models the view tree as a value and returns the path of the found view, not the view object.
- In `ProjectSharing`, archive import and export file work is not modelled: zip, md5, git commit and package info. Only the clean-up names are kept.
- `Project.java` is not part of this model, so `Project.GLOBAL_PROJECT_SLUG` is a parameter.
- ProjectSharing.GetTranslationArchiveInfo: uses the corrected strip loop (see Findings). The source loops forever on a name with a leading '/'.
- ProjectSharing.GenerateLibrary: which projects fail with a JSONException is an input flag. The pseudo-project and target-language arrays are built from input functions.
- ReviewMode.ReviewAdapter.SetSourceTranslation: the table of contents is an input, so a failing `mLibrary.open` (caught and printed) is not modelled. `mOpenResourceTab`, `loadTabInfo` and `notifyDataSetChanged` are view state and are not modelled.
- ReviewMode.BuildItems: states that the new items are distinct and unloaded, not that they are newly allocated.
- ReviewMode.ReviewAdapter.RunPostedSearch: the main-thread Handler is a queue of posted searches that runs when the caller says. Android's `Filter` runs `performFiltering` on a worker thread; the model runs it and `publishResults` one after the other.
- ClientService.Client: `isRunning` is a static field of the service class, shared by every instance; the model keeps it on the one service object.
- `ImportUsfmActivity.java`, `BackupDialog.java` and `newui/translate/ViewModeAdapter.java` are not part of this model.

## Findings

| source | as written | input that shows it | evidently intended | confidence | as-written member | corrected member |
|---|---|---|---|---|---|---|
| app/src/main/java/com/door43/translationstudio/projects/ProjectSharing.java:266-268 | the strip loop sets the name to `name.substring(name.indexOf("/"))`, which is the name itself because the index is 0 | an archive named "/uw-obs-en_v1" makes the loop run forever | drop the leading '/' characters before validating | high, not executed | ProjectSharing.StripStepMakesNoProgress | ProjectSharing.GetTranslationArchiveInfo |
| app/src/main/java/com/door43/translationstudio/projects/ProjectSharing.java:724-739 | a cached entry is deleted when its piece after '_' differs from the version, but the current zip's piece is the version plus ".zip" | complex name "uw-obs-en" and version "abc": the cached "uw-obs-en_abc.zip" is deleted, so the cached export is never returned | keep the current version's zip and directory; delete only other versions | medium, not executed | ProjectSharing.CurrentZipIsStale | ProjectSharing.StaleFixedKeepsCurrent |
| app/src/main/java/com/door43/translationstudio/newui/translate/ReviewModeAdapter.java:1572-1575 | the backward scan starts with `text.charAt(offset)`, and the drop offset from `getOffsetForPosition` can be the text's length | a drop after the last character of the chunk, or into an empty chunk, throws instead of placing the marker | treat the end of the text as a good spot | medium, not executed | ReviewMode.DropAfterLastCharThrows | ReviewMode.ClosestSpotFixed |
| app/src/main/java/com/door43/translationstudio/service/clientService.java:281 | the progress is `totalCount / ((int) size) * 100`, which divides first and so is 0 until the whole archive arrived | size 100 read as 50 and 50 bytes records 0, then 100 | `totalCount * 100 / size`, a percentage in 0..100 | high, not executed | ClientService.HalfwayShowsNoProgress | ClientService.PercentDone |

The clean-up method `ProjectSharing.CleanExports` keeps the test as written,
since the export that follows it does not otherwise depend on it. Likewise the
download model `ClientService.Client.CopyStream` records the progress as
written, because that log is what the key store receives; `PercentDone`
states what a listener should have been shown. `ReviewMode.ClosestSpot`
also keeps the exception, since that is the behaviour of the code as written.
