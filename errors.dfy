/** The errors the storage engine returns, one constructor per distinct Go error value. */
module Errors {
  import opened Wrappers

  /** The operating-system call behind an I/O failure. */
  datatype IOStep = OpenFile | Write | Flush | Sync | Seek | Scan | CloseFile | MakeDir | ReadDir

  /** The message prefix of a `fmt.Errorf("...: %w", cause)` wrapper. */
  datatype Context =
    | WalOpen          // "failed to open WAL file"
    | WalWrite         // "failed to write WAL entry"
    | WalFlush         // "failed to flush WAL buffer"
    | WalSync          // "failed to sync WAL file"
    | WalSeek          // "failed to seek WAL file"
    | WalScan          // "error reading WAL file"
    | MemtableInitWal  // "failed to initialize WAL"
    | MemtableRecover  // "failed to recover from WAL"
    | MemtableWrite    // "failed to write to WAL"
    | OpenCreateDir    // "failed to create directory"
    | OpenReadDir      // "failed to read WAL directory"
    | OpenRecover      // "failed to initialize memtable from WAL"
    | OpenInitial      // "failed to create initial memtable"
    | RotateCreate     // "failed to create new memtable"
    | SetRotate        // "failed to rotate memtable"
    | CloseCurrent     // "failed to close current memtable"
    | CloseImmutable   // "failed to close immutable memtable"

  datatype Error =
    | KeyEmpty                              // "key cannot be empty" (skip list, WAL, ErrKeyEmpty)
    | KeyHasColon                           // "key cannot contain ':' character"
    | BadLine(line: nat)                    // "invalid WAL entry format at line %d"
    | MemtableClosed                        // "memtable is closed"
    | MemtableFull                          // "memtable is full"
    | DBClosed                              // ErrDBClosed
    | IO(step: IOStep)                      // an operating-system failure
    | Wrapped(context: Context, cause: Error)

  /** Go's `error`: None is `nil`. */
  type Status = Option<Error>
}
