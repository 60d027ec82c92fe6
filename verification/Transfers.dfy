/** What every transfer shares: the state machine, the metadata and the little file system underneath. */
module Transfers {
  import opened Bytes
  import opened ChunkCodec

  datatype TransferState =
    | Idle | Requested | Accepted | Transferring | Cancelling | Completed
    | Failed | Cancelled | Interrupted | ResumeRequested | Resuming

  /** The table VALID_TRANSITIONS. */
  predicate InTable(from: TransferState, to: TransferState) {
    match from
    case Idle => to.Requested? || to.Accepted? || to.Transferring? || to.Failed? || to.Cancelled?
    case Requested => to.Accepted? || to.Failed? || to.Cancelled?
    case Accepted => to.Transferring? || to.Failed? || to.Cancelled?
    case Transferring => to.Cancelling? || to.Completed? || to.Failed? || to.Interrupted?
    case Cancelling => to.Cancelled? || to.Failed?
    case Interrupted => to.ResumeRequested? || to.Failed?
    case ResumeRequested => to.Resuming? || to.Failed?
    case Resuming => to.Completed? || to.Interrupted? || to.Failed?
    case Completed | Failed | Cancelled => false
  }

  /** The state can get from one value to the other in at most two moves of the table. */
  ghost predicate Follows(from: TransferState, to: TransferState) {
    from == to || InTable(from, to) || exists mid :: InTable(from, mid) && InTable(mid, to)
  }

  predicate Terminal(s: TransferState) {
    s.Completed? || s.Failed? || s.Cancelled?
  }

  const MAX_FILE_SIZE := 10 * 1024 * 1024 * 1024

  /** The fields of a TRANSFER_REQUEST the transfer engine uses, as validated by from_dict. */
  datatype Metadata = Metadata(id: TransferId, fileSize: nat, chunkSize: nat, chunkCount: nat, sha256: string) {
    predicate Valid() {
      && fileSize <= MAX_FILE_SIZE
      && 0 < chunkSize <= MAX_CHUNK_PAYLOAD
      && chunkCount == ChunkCount(fileSize, chunkSize)
    }
  }

  function ChunkCount(fileSize: nat, chunkSize: nat): nat
    requires chunkSize > 0
  {
    if fileSize > 0 then (fileSize + chunkSize - 1) / chunkSize else 0
  }

  /** The largest multiple of the chunk size that is not above n. */
  function ChunkFloor(n: nat, chunkSize: nat): (m: nat)
    requires chunkSize > 0
    ensures m <= n < m + chunkSize
    ensures m % chunkSize == 0 && m / chunkSize == n / chunkSize
  {
    FloorFacts(n / chunkSize, chunkSize);
    n / chunkSize * chunkSize
  }

  lemma FloorFacts(q: nat, chunkSize: nat)
    requires chunkSize > 0
    ensures q * chunkSize % chunkSize == 0 && q * chunkSize / chunkSize == q
  {
    assert q * chunkSize == chunkSize * q + 0;
    DivUnique(q * chunkSize, chunkSize, q);
  }

  lemma DivUnique(n: nat, k: nat, q: nat)
    requires k > 0 && q * k <= n < q * k + k
    ensures n / k == q
  {
    var d := n / k;
    assert n == d * k + n % k;
    assert (q - d) * k <= n % k && (d - q) * k < k;
    AtLeastOnce(q - d, k);
    AtLeastOnce(d - q, k);
  }

  lemma AtLeastOnce(m: int, k: nat)
    ensures m >= 1 ==> m * k >= k
  {
  }

  /** Nothing interfered with the first n frames. */
  predicate Quiet(cancels: nat -> bool, fails: nat -> bool, n: nat) {
    n == 0 || (Quiet(cancels, fails, n - 1) && !cancels(n - 1) && !fails(n - 1))
  }

  type Path = string

  type Files = map<Path, Bytes>

  function Append(files: Files, path: Path, data: Bytes): Files {
    if path in files then files[path := files[path] + data] else files
  }

  function Unlink(files: Files, path: Path): Files {
    files - {path}
  }

  /** rename(2): the target, if any, is replaced. */
  function Rename(files: Files, from: Path, to: Path): Files
    requires from in files
  {
    (files - {from})[to := files[from]]
  }

  /** A file's content, with a missing file reading as empty. */
  function Content(files: Files, path: Path): Bytes {
    if path in files then files[path] else []
  }
}
