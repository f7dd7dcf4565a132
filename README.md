# Storage manager over a flat object store

A model of the storage manager in `src/storageManager.js`. The manager
presents per-user directories on top of a flat key/value object store
(one Supabase bucket). Its operations are these:

- The path sanitiser `escapePath`: NFD decomposition, then removal of the
  combining marks U+0300..U+036F, then every character outside
  `[A-Za-z0-9-_./]` replaced by `-`. The regular expression has no `u`
  flag, so it replaces UTF-16 code units: a character outside the Basic
  Multilingual Plane, such as an emoji, becomes `--`.
- Key construction: escaped user id, escaped directory and escaped file
  name, joined by `/`.
- `createDirectory`: writes an empty `.keep` marker.
- `uploadFile`.
- `getArborescence`: a depth-first walk that lists one level at a time
  and builds a tree of folder and file nodes.
- `listUserFiles`.
- `renameDirectory`: lists one level, then moves each entry, stopping at
  the first failure.
- `renameFile`, `deleteFile` and `moveFile`.
- `deleteDirectory`: removes every listed entry, recurses into the entries
  without an id, then lists once more.
- `copyFile`: downloads the source, then uploads it with upsert.

**The store.** The store is a class `ObjectStore.Bucket` over a map from
key to bytes. Its `list(prefix)` is derived from the map:

- A direct child `n` that is itself a key is a file entry, which has an id
  and a size.
- A direct child that only prefixes deeper keys is a folder entry, which
  has no id.
- Entries are ordered by name, with a folder entry before the file entry
  of the same name.

**Failures.** Every store request can fail. The bucket counts the requests
issued (`clock`), and the set `faults` says which request numbers fail. So
a contract can say exactly which failure ends an operation, and what the
operation changed before it.

**How the operations are modelled.**

- The one-request operations are methods of `StorageManager.Manager`. Each
  states its full effect.
- The loops and recursions (`traverse`, `renameDirectory`,
  `deleteFilesRecursively`) are methods with loop invariants. Each is
  proved equal to a specification function of the bucket before the call:
  `Tree.TraverseRun`, `DirectoryOps.RenameRun` and `DirectoryOps.DeleteRun`.
- The properties the code promises are lemmas about those functions.
- `escapePath` and the key builders are pure functions.
- NFD is a parameter `nfd: Normalizer`, any string function that is the
  identity on ASCII text.

What the proofs establish:

- **`escapePath`** yields only allowed characters and is idempotent.
- **Keys.** A key is left unchanged by escaping. Escaping is not
  injective, and since `/` survives it, user `a/b` and user `a` can address
  the same object (`Keys.TenantsCanShareKeys`).
- **Tree.** A successful walk returns exactly the full tree: one node per
  listed entry, in order, at every depth. A walk fails exactly when one of
  its requests fails.
- **`renameDirectory`.** A successful rename moved every listed entry. A
  failed one stops at a named entry, and the moves before it stay done.
  Because the store cannot move a pure folder, a rename of a directory
  with a sub-folder that is not also an object fails at that entry.
- **`deleteDirectory`** touches only keys under the prefix. It fails
  exactly when one of its requests fails, and on success leaves nothing
  under the prefix. In the model its closing re-list is therefore always
  empty, because model listings are complete (see "## Left out"). Against
  a store that pages its listings, that re-list is what would notice keys
  left behind.

**Where the model departs from the code.**

- `deleteDirectory` returns that emptiness as a second out-parameter,
  `empty`. The code only logs it.
- The tree walk's errors do not carry the failing prefix, because the
  thrown message in the code does not include it.
- `createDirectory` and `uploadFile` upload without upsert, so the store
  refuses to replace an existing key. `copyFile` uploads with upsert.

## Model

All source cells refer to `src/storageManager.js`.

| member | source | states |
|---|---|---|
| PathSanitizer.StripMarks | src/storageManager.js:14 | no combining mark U+0300..U+036F is left and the result is never longer |
| PathSanitizer.StripMarksChar | src/storageManager.js:14 | on one character the step is a filter: a mark becomes nothing, any other character stays; with StripMarksAppend this fixes the result of every string |
| PathSanitizer.StripMarksAppend | src/storageManager.js:14 | mark removal works character by character: it distributes over concatenation |
| PathSanitizer.StripMarksIdentity | src/storageManager.js:14 | removal changes a string exactly when it holds a mark |
| PathSanitizer.Utf16Length | src/storageManager.js:15 | the length in UTF-16 code units is at least the character count, and equal exactly when no character lies outside the Basic Multilingual Plane |
| PathSanitizer.ReplaceChar | src/storageManager.js:15 | an allowed character is kept, and is kept exactly when allowed; any other becomes one '-' per UTF-16 code unit, so "--" above U+FFFF |
| PathSanitizer.ReplaceDisallowed | src/storageManager.js:15 | only allowed characters, as long as the input in UTF-16 code units; without characters above U+FFFF each position keeps its character if allowed, else holds one '-' |
| PathSanitizer.ReplaceDisallowedChar | src/storageManager.js:15 | on one character the step is ReplaceChar; with ReplaceAppend this fixes the result of every string |
| PathSanitizer.ReplaceIdentity | src/storageManager.js:15 | replacement leaves a string unchanged exactly when every character is allowed |
| PathSanitizer.ReplaceAppend | src/storageManager.js:15 | replacement distributes over concatenation |
| PathSanitizer.EscapePath | src/storageManager.js:10-16 | the result holds only characters of [A-Za-z0-9-_./], hence only ASCII |
| PathSanitizer.EscapeAscii | src/storageManager.js:12-15 | on ASCII input NFD and mark removal do nothing, so escaping preserves length |
| PathSanitizer.EscapeFixesAllowed | src/storageManager.js:12-15 | escaping leaves a string unchanged exactly when all its characters, '/' included, are allowed |
| PathSanitizer.EscapeIdempotent | src/storageManager.js:12-15 | escaping twice equals escaping once |
| PathSanitizer.EscapeMergesNames | src/storageManager.js:15 | distinct names can share one escaped name ("a b.txt" and "a-b.txt") |
| PathSanitizer.AstralExample | src/storageManager.js:12-15 | a character above U+FFFF is two code units, so "a\U{1F600}b" becomes "a--b" |
| PathSanitizer.AccentedExample | src/storageManager.js:12-15 | with a Latin-1 decomposition as NFD, "déjà vu" becomes "deja-vu" |
| Keys.DirKey | src/storageManager.js:135-136 | a directory prefix holds only allowed characters and starts with the escaped user id and '/' |
| Keys.FileKey | src/storageManager.js:39-41 | a file key holds only allowed characters and starts with its directory prefix and '/' |
| Keys.KeysScopedToTenant | src/storageManager.js:281-286 | file and marker keys lie under the escaped user id (directory prefixes do by DirKey's own contract) |
| Keys.MarkerKey | src/storageManager.js:21 | the marker key holds only allowed characters and lies under its directory prefix |
| Keys.MarkerIsFileKey | src/storageManager.js:21 | the marker key is the file key of the name ".keep" |
| Keys.KeySegmentsStable | src/storageManager.js:263-265 | escaping a built key again changes nothing |
| Keys.TenantsCanShareKeys | src/storageManager.js:171-173 | since '/' survives escaping, user "a/b" in "c" and user "a" in "b/c" build the same key |
| Names.SortedNames | src/storageManager.js:64-66 | listed names come out ascending by code point, each name of the set exactly once |
| Listings.Listing | src/storageManager.js:64-66 | the listing every `list` call returns, derived from the bucket; what it holds is stated by ListingMembership, KeyListed and ListingEmpty |
| Listings.ListingMembership | src/storageManager.js:64-66 | both directions: an entry is listed iff it is a folder entry of a name prefixing deeper keys, or the file entry, with size, of a direct child key |
| Listings.KeyListed | src/storageManager.js:198-201 | every key under the prefix is reached from the listing: as a file entry, or under the folder entry of its first level |
| Listings.ListingEmpty | src/storageManager.js:236-245 | a listing is empty exactly when no key lies under the prefix |
| ObjectStore.Moved | src/storageManager.js:151-153 | after a move the destination holds the source's content, the source is gone, and no other key changed |
| ObjectStore.MoveRoundTrip | src/storageManager.js:175-177 | moving an object away and back restores the bucket exactly |
| ObjectStore.Bucket.List | src/storageManager.js:64-66 | one request; on a fault no listing, otherwise the listing of the prefix |
| ObjectStore.Bucket.Upload | src/storageManager.js:42-44 | one request; the key is written exactly when the request succeeds and the key is free or upsert is set |
| ObjectStore.Bucket.Move | src/storageManager.js:175-177 | one request; the move happens exactly when the request succeeds and the move is possible |
| ObjectStore.Bucket.Remove | src/storageManager.js:266 | one request; the key is gone exactly when the request succeeds, which it also does for a missing key |
| ObjectStore.Bucket.Download | src/storageManager.js:316-318 | one request; content only when the request succeeds and the key exists |
| ObjectStore.Bucket.GetPublicUrl | src/storageManager.js:84-86 | one request; the locator of the key unless the request fails |
| Tree.FileSize | src/storageManager.js:94 | the size is 0 exactly when the entry reports none or reports 0 |
| Tree.TraverseRun | src/storageManager.js:63-70 | the walk of one prefix: a failed list is an error, otherwise the loop over the listing; its properties are TraverseReturnsFullTree and TraverseFailsOnFault |
| Tree.LevelRun | src/storageManager.js:72-101 | the loop over listed entries: a folder walks its children and stops on their error, a file asks for its URL and stops on a failure; its properties are the Level lemmas below |
| Tree.FullTree | src/storageManager.js:72-101 | the tree a walk returns when no request fails; FullTreeShape states its shape |
| Tree.FullLevel | src/storageManager.js:73-99 | the nodes of the listed entries from one on, in order; FullTreeShape states them |
| Tree.TraverseReturnsFullTree | src/storageManager.js:72-101 | a walk that returns a tree returns the full tree of the prefix |
| Tree.FullTreeShape | src/storageManager.js:72-101 | node i comes from listed entry i: same name; a folder iff there is no id; a folder's urlPath is path/name/ and its children the tree below; a file's size and URL come from the entry |
| Tree.FullTreeSizes | src/storageManager.js:94 | every file node at every depth has a size of at least 0 |
| Tree.TraverseFailsOnFault | src/storageManager.js:64-101 | a walk fails exactly when one of its requests fails, at any depth; the failing request is its last; no partial tree is returned |
| Tree.FaultFreeWalk | src/storageManager.js:58-111 | with no failing request the walk returns the full tree |
| DirectoryOps.MovedAll | src/storageManager.js:147-159 | the bucket after every listed move in order, or none when one is impossible; MovedAllSucceeds and MovedAllEffect state it |
| DirectoryOps.MoveEach | src/storageManager.js:147-159 | the move loop issues at most one request per remaining entry; a failure is a MoveEntryError after at least one request |
| DirectoryOps.RenameRun | src/storageManager.js:138-159 | a rename issues at least its list request, and fails only with a list or move error |
| DirectoryOps.MovedAllSucceeds | src/storageManager.js:147-159 | all moves of a listing are possible iff the names are distinct, every source is an object and no destination is taken |
| DirectoryOps.MovedAllEffect | src/storageManager.js:147-159 | after all moves each source is gone, each destination holds its source's content and every other key is as it was |
| DirectoryOps.MoveEachPasses | src/storageManager.js:147-159 | the move loop succeeds iff none of its requests fails and all moves are possible, and then it made them all |
| DirectoryOps.MoveEachStops | src/storageManager.js:154-158 | a failing move loop stops at one entry and names it; exactly the moves before it happened; that request failed or that move was impossible |
| DirectoryOps.RenameOutcome | src/storageManager.js:138-165 | a failed list changes nothing; otherwise the rename succeeds iff no request fails and every move is possible; a failure names the entry it stopped at and keeps the earlier moves |
| DirectoryOps.RenamePassMovesEveryEntry | src/storageManager.js:147-159 | a successful rename moved every listed entry to the new prefix with its content, touching no other key |
| DirectoryOps.RemoveEach | src/storageManager.js:210-220 | the remove loop only removes keys |
| DirectoryOps.RemoveEachEffect | src/storageManager.js:210-220 | the remove loop succeeds iff none of its requests fails, having removed every listed key; otherwise it stops at the first failing remove, naming it, with only the earlier keys removed |
| DirectoryOps.RemoveEachKeepsOutside | src/storageManager.js:210-220 | the remove loop keeps every key outside the prefix |
| DirectoryOps.RemoveEachFaults | src/storageManager.js:215-219 | a failing remove loop fails on its last request, with an error naming an entry |
| DirectoryOps.DeleteRun | src/storageManager.js:198-230 | the recursive deletion only removes keys |
| DirectoryOps.DeleteListed | src/storageManager.js:209-229 | the two loops over a listing only remove keys |
| DirectoryOps.DescendEach | src/storageManager.js:223-229 | the recursion over entries without an id only removes keys |
| DirectoryOps.DeleteKeepsOutside | src/storageManager.js:198-230 | the recursive deletion keeps every key outside the prefix |
| DirectoryOps.DeleteFailsOnFault | src/storageManager.js:198-230 | the recursive deletion fails exactly when one of its requests fails, on its last request, with a list or remove error |
| DirectoryOps.DeleteClears | src/storageManager.js:198-230 | a successful recursive deletion leaves no key under the prefix at any depth |
| DirectoryOps.DeleteDirectoryRun | src/storageManager.js:233-245 | the deletion plus the re-list only removes keys, and reports emptiness only after success |
| DirectoryOps.DeleteDirectoryOutcome | src/storageManager.js:193-258 | only keys under the prefix are removed; success iff no request fails; after success the re-list is empty; a failed re-list follows a complete deletion |
| StorageManager.Page | src/storageManager.js:119 | at most limit entries, a prefix of the listing, all of it when it fits |
| StorageManager.MarkerListed | src/storageManager.js:21-24 | after the marker upload the directory lists a file entry ".keep" of size 0 |
| StorageManager.UploadListed | src/storageManager.js:39-44 | after an upload the directory lists the file under its escaped name with the uploaded size, or the folder of its first segment when that name holds '/' |
| StorageManager.Manager.CreateDirectory | src/storageManager.js:19-34 | one upload of the empty marker; success iff the request succeeds and the marker is new, and then only the marker is written; otherwise an error and the bucket unchanged |
| StorageManager.Manager.UploadFile | src/storageManager.js:37-56 | one upload without replacing; success returns the key, which now holds the file's bytes; failure leaves the bucket unchanged |
| StorageManager.Manager.GetArborescence | src/storageManager.js:58-111 | the outcome and request count are those of the walk from the escaped user id |
| StorageManager.Manager.Traverse | src/storageManager.js:63-102 | the outcome and request count are those of the walk of the prefix |
| StorageManager.Manager.BuildLevel | src/storageManager.js:72-101 | the loop's outcome is that of the walk over the listed entries |
| StorageManager.Manager.ListUserFiles | src/storageManager.js:114-130 | one request; a failure is an error, otherwise at most 100 entries of the directory's listing |
| StorageManager.Manager.RenameDirectory | src/storageManager.js:133-166 | outcome, bucket and request count are those of the rename between the built prefixes |
| StorageManager.Manager.RenamePrefix | src/storageManager.js:138-160 | one list request, then the move loop over its entries |
| StorageManager.Manager.MoveEntries | src/storageManager.js:147-159 | outcome, bucket and request count are those of the move loop |
| StorageManager.Manager.RenameFile | src/storageManager.js:169-190 | one move; success iff the request succeeds and the move is possible, and then the new key holds the old content |
| StorageManager.Manager.DeleteDirectory | src/storageManager.js:193-258 | outcome, bucket and request count are those of the deletion plus re-list, and the emptiness reported is that of the re-list |
| StorageManager.Manager.DeleteFilesRecursively | src/storageManager.js:198-230 | outcome, bucket and request count are those of the recursive deletion |
| StorageManager.Manager.DeleteListedEntries | src/storageManager.js:209-229 | the remove loop, then the recursion, over one listing |
| StorageManager.Manager.RemoveEntries | src/storageManager.js:210-220 | outcome, bucket and request count are those of the remove loop |
| StorageManager.Manager.DescendEntries | src/storageManager.js:223-229 | outcome, bucket and request count are those of the recursion into the entries without an id |
| StorageManager.Manager.DeleteFile | src/storageManager.js:261-276 | one remove; on success the key is gone, on failure the bucket is unchanged |
| StorageManager.Manager.MoveFile | src/storageManager.js:279-302 | one move; success iff the request succeeds and the move is possible, and then the target holds the source's content and the source is gone |
| StorageManager.Manager.CopyFile | src/storageManager.js:305-344 | a failed download writes nothing and is its own error; otherwise the upload replaces the target with the source's bytes, leaving the source as it was; a failed upload is a different error and changes nothing |

## Left out

- Client construction (`initializeSupabase`, `createClient`) is not modelled. It binds a foreign library.
- Network I/O and `async`/`await` are not modelled. Every store call is a
  synchronous request on the in-memory bucket that may fail.
- Eventual consistency and concurrent requests are not modelled. Requests
  run one at a time, in the order the code awaits them.
- Unicode NFD decomposition is a parameter, as it needs the Unicode tables. Its only assumption is that ASCII text is already in normal form.
- The public URL's format is not modelled. The URL is the key wrapped in `PublicUrl`.
- Logging is not modelled.
- The wording of error messages is not modelled, including the store's
  own message. An error records only which step failed, and which entry
  when the message names one.
- The `contentType` of the marker upload is not modelled.
- The store's default page size for `list` calls without a limit is not
  modelled. Those listings are complete. Only `listUserFiles` bounds its
  result, at 100.
- Creation times are not modelled. Listed entries carry none. The full
  type `File` is not modelled either; it is reduced to a name and its bytes.
- ObjectStore.Bucket.GetPublicUrl: modelled as a request that may fail. supabase-js never reports an error there, but the code checks for one.
- StorageManager.Manager.BuildLevel: the test for a folder is modelled as "the entry has no id". An empty-string id would also count as a folder in the code, but the store's ids are never empty.
- The store's behaviour is an assumption of the model:
  - an upload without upsert fails on an existing key;
  - a move fails unless its source exists and its destination is free;
  - removing a missing key succeeds;
  - downloading a missing key fails;
  - listing an unknown prefix gives no entries.
- The recursive variant of `renameDirectory`, which would move the
  contents of sub-folders, is not modelled. The code lists one level only.
