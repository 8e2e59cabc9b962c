/** What the walker sees and the facts it produces (internal/fact/fs.go, internal/fact/fstally.go). */
module FsFacts {
  import opened Ids
  import Lex

  /** A flattened stat result. Zero dev and ino mean the identity was not recorded. */
  datatype FileInfo = FileInfo(
    path: ID, mode: nat, uid: nat, gid: nat, size: int,
    isDir: bool, isRegular: bool, isSymlink: bool, dev: nat, ino: nat)
  {
    predicate Enterable() {
      isDir && !isSymlink
    }

    predicate Identified() {
      dev != 0 || ino != 0
    }

    function Id(): DevIno {
      DevIno(dev, ino)
    }
  }

  datatype DevIno = DevIno(dev: nat, ino: nat)

  datatype DirResult = DirResult(entries: seq<FileInfo>, truncated: bool)

  datatype FSRow = FSRow(
    path: ID, mode: nat, uid: nat, gid: nat, size: int,
    isDir: bool, isRegular: bool, isSymlink: bool)

  function DefaultRow(fi: FileInfo): FSRow {
    FSRow(fi.path, fi.mode, fi.uid, fi.gid, fi.size, fi.isDir, fi.isRegular, fi.isSymlink)
  }

  const TRUNC_DEPTH := ID("depth_limit")
  const TRUNC_INODES := ID("inode_limit")
  const TRUNC_DEADLINE := ID("wall_clock")
  const TRUNC_DIR_LISTING := ID("dir_listing")
  const TRUNC_UNREADABLE := ID("unreadable_dir")
  const TRUNC_MOUNTS_UNKNOWN := ID("mounts_unknown")
  const TRUNC_MAX_HITS := ID("max_hits")
  const TRUNC_MAX_KEYS := ID("max_keys")

  /** Add a reason to a sorted list without duplicates. */
  function AddReason(reasons: seq<ID>, reason: ID): seq<ID> {
    if reason in reasons then reasons else Sort(reasons + [reason])
  }

  lemma {:induction false} AddReasonMembers(reasons: seq<ID>, reason: ID)
    ensures forall x :: x in AddReason(reasons, reason) <==> x in reasons || x == reason
  {
    Lex.SortByMembers(reasons + [reason], NameOf);
  }

  /** The reason list stays sorted and free of duplicates. */
  lemma {:induction false} AddReasonKeepsOrder(reasons: seq<ID>, reason: ID)
    requires Lists(reasons, Members(reasons))
    ensures Lists(AddReason(reasons, reason), Members(reasons) + {reason})
  {
    if reason !in reasons {
      SortLists(reasons + [reason]);
      MembersSnoc(reasons, reason);
    }
  }

  /** One interest's observations (fact.FSMatches). */
  datatype FSMatches = FSMatches(
    interest: ID, roots: seq<ID>, rows: seq<FSRow>,
    truncated: bool, reasons: seq<ID>, overflow: nat, inodesVisited: nat)
  {
    /** Whether absence may be concluded from this fact. */
    predicate Complete() {
      !truncated && overflow == 0
    }

    function MarkTruncated(reason: ID): FSMatches {
      this.(truncated := true, reasons := AddReason(reasons, reason))
    }
  }

  datatype FSBucket = FSBucket(key: nat, count: nat, example: FSRow)

  /** One tally's observations (fact.FSTally). */
  datatype FSTally = FSTally(
    tally: ID, roots: seq<ID>, buckets: seq<FSBucket>,
    truncated: bool, reasons: seq<ID>,
    keysDropped: nat, inodesTallied: nat, inodesVisited: nat)
  {
    predicate Complete() {
      !truncated && keysDropped == 0
    }

    function MarkTruncated(reason: ID): FSTally {
      this.(truncated := true, reasons := AddReason(reasons, reason))
    }
  }
}
