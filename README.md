# The goli storage engine's write path, in Dafny

This project models the in-memory write path of the `storage` package of
goli, a small key-value store written in Go, and proves properties of the
model. The package has four layers:

- **Skip list** (`StorageSkipList`). An ordered index of byte-string keys.
  It has a sentinel head, node heights drawn by coin flips and a level-0
  chain kept in key order.
  - Nodes live in an arena: a sequence of `Node(key, value, next)` with
    `-1` for nil. A ghost list of the nodes on level 0 describes each
    level's chain. The descent, splice and unlink loops shared with the
    prototype are in `Arena`.
  - `Put` never replaces a value. A key put twice is held twice, the newer
    entry first, and `size` counts both.
- **Write-ahead log** (`StorageWal`, with the record format in `WalFormat`).
  A file opened for appending, behind a buffered writer.
  - `Entry` refuses an empty key and a key that contains `:`. It then
    writes `key:value\n`, flushes and syncs.
  - `Read` rescans the file from its start. It fails on the first line
    that does not split into exactly two fields, naming that line's number
    counted from 1. Otherwise it builds a map where the last line for a key
    wins.
  - The file is modelled by its bytes, the writer's 4096-byte buffer, the length of
    the synced prefix, the writer's sticky error and an open flag.
- **Memtable** (`StorageMemtable`). A skip list backed by its own log.
  - `Set` refuses a closed or full table, writes the log first and updates
    the index and the byte count only once the log has the record.
  - `InitMemtable` replays the decoded log into a fresh skip list.
- **Database** (`StorageDB`). One current memtable and a list of immutable
  ones, oldest first.
  - A write that finds the current table full rotates in a fresh table and
    retries once.
  - `Get` searches the current table, then the immutable ones oldest first.
  - `Close` closes every table once, stopping at the first failure.
  - A ghost field `layers` holds the entries of every table, oldest first.
    The lookups and writes are specified on it (module `Layers`).

Two prototype packages are modelled the same way:

- `utils/skip-list.go` (`UtilsSkipList`) has no sentinel: the first key
  lives in the head node itself, and `Get` never looks at it.
- `wal/wal.go` (`ProtoWal`) writes without validation and skips malformed
  lines when it reads.

Keys and values are byte sequences (`Keys.Bytes`), so Go's `len` and the
memtable's size arithmetic are exact. Go's `<` on strings is `Keys.Less`,
compared byte by byte.

The model does no real I/O. Each operating-system call that can fail is a
choice the verifier must cover both ways:

- opening, writing, flushing, syncing, seeking, scanning and closing a file;
- making a directory and listing one.

The coin flips of `levelUp` are handled the same way. `Open` takes the
contents of the log files it finds, in directory order, as a parameter.
Whether the directory of a new log exists is a parameter of `InitWal`
(`StorageWal.PathKind`): opening with `O_CREATE` fails unless it is a
directory.

## Model

| member | source | states |
|---|---|---|
| Keys.LessTrichotomy | storage/skip-list.go:71 | any two keys are equal or one is byte-wise below the other, so the skip list's key order is total |
| Keys.LessTransitive | storage/skip-list.go:71 | byte-wise `<` on keys is transitive |
| Ordered.InsertSorted | storage/skip-list.go:70-95 | inserting a pair after the smaller keys and before the equal ones keeps the entries sorted and adds exactly one entry |
| Ordered.FindInsert | storage/skip-list.go:86-95 | after a Put of (k, v), looking up k finds v, even when k was already present, and every other key reads as before |
| Ordered.DeleteAfterDuplicatePut | storage/skip-list.go:97-105 | two Puts of one key leave two entries: the lookup sees the newer value, and after one Delete the older value is visible again |
| Ordered.RemoveUndoesInsert | storage/skip-list.go:127-160 | a Delete of the key just put restores the previous entries exactly |
| Ordered.RemoveFirstSorted | storage/skip-list.go:145-151 | unlinking an entry keeps the entries sorted |
| Ordered.FindRemoveOther | storage/skip-list.go:145-151 | deleting one key changes the lookup of no other key |
| Ordered.RemoveFirstLength | storage/skip-list.go:158 | a Delete removes exactly one entry when the key is present and none otherwise |
| Ordered.RepresentsInsert | storage/memtable.go:46-48 | replaying one more pair into a skip list that holds a map gives a list holding the updated map |
| Arena.ScanLevel | storage/skip-list.go:71-73 | the inner scan of a level stops at the last node on that level whose key is below the sought key |
| Arena.Descend | storage/skip-list.go:68-76 | the descent records, for each level from the top one down, the last node below the key, and ends at its predecessor on level 0 |
| Arena.RaiseTrack | storage/skip-list.go:78-84 | when the new height exceeds the current level, the head becomes the predecessor on every new level |
| Arena.SpliceIn | storage/skip-list.go:92-95 | splicing the new node in after each recorded predecessor yields a well-shaped list whose entries are the old ones with the pair inserted |
| Arena.Place | storage/skip-list.go:78-95 | raising the level and splicing gives a well-shaped list of the raised height holding the inserted pair |
| Arena.UnlinkNode | storage/skip-list.go:145-151 | bypassing the node on each level where its predecessor points to it removes exactly that node's entry and keeps the list well shaped |
| Arena.DropLevels | storage/skip-list.go:153-156 | the level shrinks while the top head pointer is nil, never below 1, and stops at a level whose top head pointer is set |
| StorageSkipList.SkipList.InitSL | storage/skip-list.go:26-45 | an empty list; a probability outside (0, 1) becomes 0.5, a height of at most 0 becomes 16, the level starts at 1 and the size at 0 |
| StorageSkipList.SkipList.Put | storage/skip-list.go:47-106 | the empty key is refused with nothing changed; any other key is inserted ahead of its older entries and the size grows by exactly 1, duplicate or not |
| StorageSkipList.Link | storage/skip-list.go:78-105 | after the descent, the raise and the splice the list holds the inserted pair, keeps its invariant and counts one more entry |
| StorageSkipList.PutKeeps | storage/skip-list.go:86-105 | the fields Put leaves keep the list's invariant: sorted, no empty key, size equal to the number of entries |
| StorageSkipList.DeleteKeeps | storage/skip-list.go:145-158 | the fields Delete leaves keep the list's invariant and hold the entries minus the first one with the key |
| StorageSkipList.SkipList.Get | storage/skip-list.go:108-125 | found exactly when an entry with the key is on the level-0 chain, with the newest such value; otherwise the empty value |
| StorageSkipList.SkipList.Delete | storage/skip-list.go:127-160 | true exactly when the key was present; the first entry with the key is removed and the size drops by 1; an absent key changes nothing; after a removal the level drops to the highest one whose head pointer is set, never below 1 |
| StorageSkipList.SkipList.LevelUp | storage/skip-list.go:162-168 | a height between 1 and the maximum level |
| StorageSkipList.SkipList.Size | storage/skip-list.go:170-174 | the size is the number of entries held |
| StorageSkipList.SkipList.Iterator | storage/skip-list.go:181-186 | a fresh cursor on the head of this list |
| StorageSkipList.Cursor.Next | storage/skip-list.go:188-194 | steps to the next entry of the level-0 chain, false without moving at the end; keys never decrease along the way |
| StorageSkipList.Cursor.Key | storage/skip-list.go:196-201 | the key of the entry under the cursor, the empty key on the head |
| StorageSkipList.Cursor.Value | storage/skip-list.go:203-208 | the value of the entry under the cursor, the empty value on the head |
| WalFormat.SplitParts | storage/wal.go:70 | `strings.Split` on ':': the pieces joined back give the line, and no piece holds the separator |
| WalFormat.SplitJoin | storage/wal.go:70 | splitting at one separator splits the two sides independently |
| WalFormat.LinesRecord | storage/wal.go:46-55 | appending a record to a log that ends at a line boundary adds exactly that record's line |
| WalFormat.LinesEncode | storage/wal.go:63-69 | the scanner's lines of a log of records are the records' texts when no key or value holds a newline |
| WalFormat.TextParses | storage/wal.go:70-74 | a record whose key and value hold no ':' splits into exactly two fields that give back the pair |
| WalFormat.TextColonValue | storage/wal.go:70-72 | a record whose value holds ':' does not split into two fields |
| WalFormat.LastWinsLookup | storage/wal.go:74 | a key is in the map exactly when some line has it, and it maps to the value on its last line |
| WalFormat.RoundTrip | storage/wal.go:58-82 | reading a log of records with no ':' or newline in keys or values gives the last-writer-wins map of the pairs written |
| WalFormat.ColonInValueFails | storage/wal.go:70-73 | a record with ':' in its value, though Entry accepts it, makes a later Read fail at that record's 1-based line |
| WalFormat.DecodeAt | storage/wal.go:71-72 | the read fails with the 1-based number of the first malformed line |
| WalFormat.FirstBadAt | storage/wal.go:67-73 | the first line that is not well formed is where the read stops |
| WalFormat.LenientAgrees | wal/wal.go:40-45 | on a log the strict reader accepts, the lenient reader returns the same map |
| StorageWal.InitWal | storage/wal.go:16-26 | either the open fails with a wrapped error, or a fresh log over the file's bytes with an empty buffer; the open always fails when the path's directory is a file or does not exist |
| StorageWal.Wal.Entry | storage/wal.go:38-56 | an empty key or a key with ':' is refused with nothing written; on success exactly `key:value` and a newline are appended and made durable; a broken writer fails at once; a failed write, flush or sync appends at most a prefix of the record and never lowers the durable length |
| StorageWal.Wal.Read | storage/wal.go:58-82 | success or a bad-line error is exactly the strict decoding of the file's lines; any other failure comes from the seek or the scanner; nothing changes |
| StorageWal.Wal.Close | storage/wal.go:28-36 | flush, then sync, then close, the first failure returned and stopping the rest; success leaves everything written durable and the file closed |
| StorageWal.Buffered | storage/wal.go:24 | a successful buffered write loses and duplicates no byte: what reaches the file followed by what stays buffered is the old buffer followed by the string, and the buffer never holds more than its 4096 bytes |
| StorageWal.Wal.WriteString | storage/wal.go:47-50 | on success the file gains and the buffer keeps exactly what `Buffered` says: a string that fits stays buffered, and cannot fail; a string longer than the buffer behind an empty buffer goes straight to the file; on a closed file a string that does not fit fails; after a failure every write fails; whatever happens, the file and then the buffer hold a prefix of the old contents followed by the string, never losing what was there |
| StorageWal.Wal.Drain | storage/wal.go:47-50 | the buffered writer's loop: it stops only when the rest fits the free space, with the bytes handed on in order and the outcome `Buffered` predicts kept; a string that fits never fails, and on a closed file one that does not fit always fails |
| StorageWal.Wal.Spill | storage/wal.go:47-50 | one round of the buffered writer's loop: the bytes are handed on in order, the outcome `Buffered` predicts for the rest is kept, and it makes progress; a failure keeps the bytes in order |
| StorageWal.Wal.Flush | storage/wal.go:52-54 | the buffer moves to the file, an empty buffer trivially; a failed write leaves the unwritten rest buffered and the failure sticky |
| StorageWal.Wal.Sync | storage/wal.go:55 | on success the whole file is durable; it fails on a closed file |
| StorageWal.ParsedSnoc | storage/wal.go:68-75 | one more well-formed line extends the map built so far by that line's pair |
| StorageMemtable.InitMemtable | storage/memtable.go:23-56 | a maximum of at most 0 becomes 32 MiB; the table starts open with size 0 and its skip list finds every non-empty key of the map the log decodes to, with its value, and nothing else (an empty key decoded from a line such as `:x` is dropped, as the skip list refuses it); a log that does not decode, or a log that cannot be opened, gives no table; a log under a path that is not a directory can never be opened |
| StorageMemtable.Replay | storage/memtable.go:43-48 | putting every decoded pair once, in any order, gives a fresh skip list that finds every non-empty key of the decoded map, with its value, and nothing else |
| StorageMemtable.Memtable.Set | storage/memtable.go:58-80 | a closed or full table refuses with nothing changed; otherwise an empty key, or a key holding `:`, is refused by the log with `KeyEmpty` or `KeyHasColon` and nothing changed; a failed log write leaves index and size alone; on success the log gets the record, the index gets the pair and the size grows by the key and value lengths, never above the maximum; whatever happens, the log grows by at most a prefix of the record |
| StorageMemtable.Memtable.Get | storage/memtable.go:82-91 | a miss on a closed table; otherwise the skip list's newest value for the key |
| StorageMemtable.Memtable.Delete | storage/memtable.go:93-95 | a Set of the empty value: closed, full, empty-key and `:` refusals with nothing changed; on success the log gains the tombstone record `key:` and a newline before the index gets the empty value; whatever happens, the log grows by at most a prefix of that record |
| StorageMemtable.Memtable.Close | storage/memtable.go:97-107 | the first call marks the table closed and returns the log's Close result: on success the log is flushed, synced and closed with its bytes unchanged, a broken writer gives the flush error, and a closed file an error; later calls return nil and change nothing |
| StorageMemtable.Memtable.Size | storage/memtable.go:109-114 | the byte count, never above the maximum |
| StorageDB.TableBound | storage/db.go:99 | every memtable a database makes has the options' size as its maximum, or 32 MiB when that is not positive |
| StorageDB.OwnsSnoc | storage/db.go:84 | a table that shares no object with the database's tables can join the end of the list |
| Layers.FirstHit | storage/db.go:155-168 | the lookup misses exactly when no table holds the key, and otherwise answers from the first table in search order that holds it |
| Layers.OldestStep | storage/db.go:161-165 | searching oldest first, a table answers when it holds the key and passes on to the next one otherwise |
| Layers.NewestStep | storage/db.go:161-165 | searching newest first, a table answers when it holds the key and passes on to the next older one otherwise |
| Layers.WriteSeen | storage/db.go:127-158 | in the lookup's own order a key just written into the current table reads its new value |
| Layers.WriteNewest | storage/db.go:127 | newest first, a write shows its new value for its key and changes no other key |
| Layers.RotateNewest | storage/db.go:97-112 | newest first, a rotation's fresh empty table changes no lookup |
| Layers.RotateHidesNewest | storage/db.go:161 | oldest first, a rotation followed by a write of another key makes a key read its older value instead of its newer one |
| StorageDB.DB.constructor | storage/db.go:64-69 | a database with its name and options, no tables yet and open |
| StorageDB.DB.RotateMemtable | storage/db.go:96-113 | a failure changes nothing, and the new log cannot be made outside an existing directory; otherwise a fresh empty open table becomes current and the old current one, if any, joins the end of the immutable list |
| StorageDB.DB.Set | storage/db.go:115-141 | an empty key and a closed database are refused with nothing changed; a key holding `:` always ends in an error; a full current table causes a rotation, unless the rotation fails, and then exactly one retry into the empty new table, which is full only when the key and value alone exceed the bound; other errors pass through; on success Get sees the value at once, and newest first only the key changes |
| StorageDB.DB.SetAsWritten | storage/db.go:115-141 | as written the full-table test at line 130 never holds: a full current table's error is returned, no table is rotated, and nothing else changes |
| StorageDB.DB.SetCurrent | storage/db.go:127 | the current table's Set: full exactly when the key and value do not fit, a fitting key that is empty or holds `:` gives the log's refusal, other failures are log write failures, and success writes the pair into the current layer |
| StorageDB.DB.Get | storage/db.go:143-169 | a miss for the empty key or a closed database; otherwise the current table, then the immutable ones oldest first, the first hit answering |
| StorageDB.DB.GetNewest | storage/db.go:143-169 | the lookup with the immutable tables searched newest first: it returns every key's last successful Set |
| StorageDB.DB.Delete | storage/db.go:171-173 | a Set of the empty value, so a later Get finds the key with the empty value rather than missing it |
| StorageDB.DB.Close | storage/db.go:175-198 | the first call marks the database closed, closes the current table and then the immutable ones in order, and stops at and returns the first failure, wrapped with the table it came from; success means every table's log is flushed, synced to its end and closed; a broken writer in the current table gives its flush error, and one in any immutable table forces an error; later calls return nil |
| StorageDB.DB.Shut | storage/db.go:177-196 | a failure closing the current table leaves every immutable table open; a failure at an immutable table leaves the tables before it closed, with their logs closed, and those after it open; every error is one a table's Close returns; success closes every log |
| StorageDB.DB.CloseImmutables | storage/db.go:189-195 | the immutable tables are closed in order up to the first whose Close fails, whose error is returned; the tables before it have their logs flushed, synced and closed; success means every immutable log is; a table whose writer is broken forces an error; the current table's log is untouched |
| StorageDB.DB.CloseTable | storage/db.go:184 | one table is closed and its Close result passed on: success means its log is flushed, synced and closed, a broken writer gives the flush error, and any error is one a table's Close returns; no other table's closed flag or log changes |
| StorageDB.DB.FlushImmutableMemtables | storage/db.go:200-219 | afterwards the immutable list is empty and only the current table remains |
| StorageDB.Open | storage/db.go:48-94 | an empty name is refused; directory and listing failures are wrapped errors; on success the database is open, holds one immutable table per log in directory order, each finding every non-empty key of the map its log decodes to, and nothing else, then a fresh empty current table; any log that does not decode makes it fail |
| StorageDB.OpenAsWritten | storage/db.go:48-94 | with the paths as written (a log file's path at storage/db.go:80, a path nothing creates at storage/db.go:98-99) every Open fails |
| StorageDB.Recovered | storage/db.go:84 | a recovered table joins the end of the immutable list |
| StorageDB.RecoversSnoc | storage/db.go:78-86 | one more recovered log extends the recovered tables by its table |
| StorageDB.RotatedLayers | storage/db.go:131-135 | newest first, the rotation before the retry changes no lookup |
| StorageDB.NewestAfter | storage/db.go:127-135 | newest first, a successful write shows the new value and changes no other key, and a failed one changes nothing |
| UtilsSkipList.SkipList.InitSL | utils/skip-list.go:18-25 | an empty list with no head and level 0, probability and height kept as given |
| UtilsSkipList.SkipList.Put | utils/skip-list.go:27-70 | the first Put stores its pair in the head itself at level 1, with any height bound of at least 0; later Puts insert after the smaller keys of the chain behind the head, whatever the head's key |
| UtilsSkipList.SkipList.Get | utils/skip-list.go:72-89 | found exactly when an entry with the key is on the chain behind the head; the head's own key is never looked at |
| UtilsSkipList.SkipList.Delete | utils/skip-list.go:91-123 | true exactly when the key is on the chain behind the head; that entry is unlinked, the head is kept and the empty top levels are dropped, never below 1; a miss changes nothing |
| UtilsSkipList.SkipList.LevelUp | utils/skip-list.go:125-131 | a height between 1 and the maximum level |
| UtilsSkipList.CutIsRemoveFirst | utils/skip-list.go:110-115 | the unlinking removes the first entry with the key and leaves the head's pair alone |
| UtilsSkipList.FirstKeyLost | utils/skip-list.go:31-39 | a key put into a fresh list is not found by the next Get |
| ProtoWal.NewWal | wal/wal.go:13-22 | either the open fails and its error is returned, or a write-only log over the file's bytes at offset 0 |
| ProtoWal.Wal.Entry | wal/wal.go:24-31 | `key:value` and a newline are appended with no check of key or value, then synced; a failed write may leave part of the record in the file |
| ProtoWal.Wal.Read | wal/wal.go:33-53 | the lenient decoding of the lines from the current offset, malformed lines skipped and later lines winning; a scanner error returns no map; a write-only file fails |
| ProtoWal.Wal.Sync | wal/wal.go:30 | on success the whole file is durable |
| ProtoWal.KeptSnoc | wal/wal.go:40-45 | one more line adds its pair when it splits into two fields and nothing otherwise |

## Left out

- `goli/collection.go`, `goli/goli.go` and `goli/db.go` are not part of this model. They are thin wrappers over bbolt, an external library that is not modelled.
- `main.go` and `cmd/main.go` are not part of this model. They are process entry points.
- `memtable/memtable.go` is not part of this model. Its `Put`, `Get` and `Delete` are empty stubs.
- Real file I/O is replaced by nondeterministic success or failure of each call.
  - The bufio scanner's 64 KiB token limit and its stripping of a final `\r` are not modelled.
  - The file offset is modelled only where it matters: the prototype reads from the current offset.
- `os.MkdirAll`, `os.ReadDir`, `filepath.Join` and `uuid.NewString` are not modelled; only whether each call succeeds is. `Open`'s skipping of sub-directories in the log directory (storage/db.go:79) is not represented, because `logs` holds only file contents.
- StorageDB.Open passes `Directory` for every log it makes, which is the corrected half of a finding below. The memtable then recovers from the log it is named after, and each file name is not modelled.
- StorageDB.DB.Set recognises the one `MemtableFull` error, which is the corrected half of a finding below. `ErrMemtableFull` is not among the errors declared at storage/db.go:14-17, so the package does not build as written.
- Concurrency is not modelled.
  - `sync.RWMutex` is dropped.
  - `sync.Once` becomes the `closed` flag.
  - The `go db.flushImmutableMemtables()` goroutine (storage/db.go:108) is not started by the rotation. The flush is a separate sequential method.
- The float probability of the skip lists and `rand.Float64` are not modelled; `levelUp` flips a nondeterministic coin. `p` is kept as a field only.
- The skip lists' unused `comparator` field is not modelled. Nodes are indices into a sequence of node values rather than heap pointers. No two nodes alias, because the source never shares a node between lists.
- StorageSkipList.SkipList.Put: the `sl.head == nil` branch (storage/skip-list.go:57-66) is not modelled. `InitSL` always makes a head and nothing removes it.
- StorageSkipList.SkipList.Put: the duplicate check at storage/skip-list.go:97-102 is dead code, since the predecessor's key is always below the new key. The model proves that branch unreachable.
- StorageSkipList.Cursor: a cursor is valid only while its list is unchanged. A Put or Delete during iteration is not modelled, though Go's iterator keeps walking the changed list.
- StorageSkipList.Cursor.Next: the nil checks of `it.current` (storage/skip-list.go:189, 197, 204) cannot fire. `Next` never moves past the last node, so the model has no nil cursor.
- UtilsSkipList.SkipList.Get requires a non-empty list: on an empty one the Go code dereferences a nil head and panics. The same holds for `UtilsSkipList.SkipList.Delete`.
- UtilsSkipList.SkipList.Put requires a height bound of at least 0, because `make` with a negative length panics (utils/skip-list.go:29). Once the head exists it requires at least 1: with 0 the first Put succeeds, but the next one panics at utils/skip-list.go:44 on the head's empty level slice. `UtilsSkipList.SkipList.Get` and `UtilsSkipList.SkipList.Delete` need a bound of at least 1 for the same reason (lines 77 and 97).
- The memtable's `id` field is not modelled. Neither are the unused options `MaxConcurrency`, `SyncWrites` and `DataDir`, or `DefaultOptions`.
- Memtable sizes are unbounded integers. The Go `int64` sum at storage/memtable.go:67 would overflow only beyond 2^63 bytes.
- `compactMemtable` is an empty stub. It is not modelled, and neither are the `fmt.Printf` logging and the `os.Remove` of each flushed table's log (storage/db.go:204-215).
- StorageDB.DB.Close stops at the first table that fails to close, as storage/db.go:183-194 does, and the tables after it stay open.
- StorageWal.Wal.WriteString: the buffered writer is modelled from the behaviour of Go's `bufio.Writer` with its default 4096-byte buffer (storage/wal.go:24), which is library code outside the repository. A failed write to the file is assumed to report how much it wrote, and that part stays in the file.
- Error messages are modelled by their wrapping context and cause. The names in the messages (directory, file name, line text) are not modelled.

## Findings

| source | as written | input that shows it | evidently intended | confidence | as-written member | corrected member |
|---|---|---|---|---|---|---|
| storage/db.go:161 | `Get` searches the immutable memtables oldest first. A rotation appends the retired table at the end (storage/db.go:106), so a key whose newer value sits in a newer immutable table reads its older value | with the two defects below corrected, MemtableSize 2: `Set("a","1")`, `Set("a","2")` (rotates), `Set("b","3")` (rotates), then `Get("a")` returns "1", provided the background `flushImmutableMemtables` started at storage/db.go:108 has not yet run (once it has, storage/db.go:218 empties the immutable list) | search the immutable tables newest first, so `Get("a")` returns "2", the last value set | not executed | Layers.RotateHidesNewest | StorageDB.DB.GetNewest |
| storage/db.go:80 | Recovery passes a log file's own path to `InitMemtable`, and the rotation at storage/db.go:98-99 passes `walDir/<uuid>.log`, which nothing creates. `InitMemtable` makes its log inside the path it is given (storage/memtable.go:29), so the log's directory is a file or missing and `os.OpenFile` fails | `Open("db", opts)` with any log directory: with a log file present its recovery fails; with none, the initial rotation fails | give `InitWal` the log file's path itself, or a directory, so that recovery reopens each log and a rotation creates one | not executed | StorageDB.OpenAsWritten | StorageDB.Open |
| storage/db.go:130 | `errors.Is(err, ErrMemtableFull)` compares by identity, but a full memtable returns a fresh `errors.New("memtable is full")` (storage/memtable.go:69). No sentinel declared elsewhere can match it, so the full error reaches the caller and the table never rotates | MemtableSize 2: `Set("a","1")`, then `Set("b","2")` returns "memtable is full" | rotate in a new memtable and retry the write there | not executed | StorageDB.DB.SetAsWritten | StorageDB.DB.Set |
