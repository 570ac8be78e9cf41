/**
 * A concrete namespace behind the oracle: each path names an inode or a
 * symbolic link. `stat` resolves links, giving up after SYMLOOP_MAX of them
 * (ELOOP) or at a missing path (ENOENT); `lstat` reports a link itself;
 * `readlink` answers only for links.
 */
module Namespace {

  import opened Wrappers
  import opened Filesystem

  datatype Node = Inode(mode: Mode) | SymlinkNode(target: Path)

  type Tree = map<Path, Node>

  /** SYMLOOP_MAX: how many links one lookup may traverse. */
  const SymloopMax: nat := 32

  /** The mode lstat reports for a link: S_IFLNK with all permission bits. */
  const LinkMode: Mode := SymlinkType + 0x1FF

  /** An inode's own mode never claims to be a link; links are SymlinkNodes. */
  predicate WellFormed(t: Tree)
  {
    forall p :: p in t && t[p].Inode? ==> !IsSymlink(t[p].mode)
  }

  /** The mode stat reports for `p`, following at most `hops` links. */
  function Resolve(t: Tree, p: Path, hops: nat): Option<Mode>
    decreases hops
  {
    if p !in t then None
    else match t[p]
      case Inode(m) => Some(m)
      case SymlinkNode(q) => if hops == 0 then None else Resolve(t, q, hops - 1)
  }

  /** The oracle a namespace gives. */
  function OracleOf(t: Tree): (fs: Oracle)
    ensures forall p :: p in fs.lstat <==> p in t
    ensures forall p :: p in fs.stat <==> Resolve(t, p, SymloopMax).Some?
    ensures forall p :: p in fs.links <==> p in t && t[p].SymlinkNode?
  {
    Oracle(
      map p | p in t && Resolve(t, p, SymloopMax).Some? :: Resolve(t, p, SymloopMax).value,
      map p | p in t :: if t[p].Inode? then t[p].mode else LinkMode,
      map p | p in t && t[p].SymlinkNode? :: t[p].target)
  }

  /** Allowing more hops never changes a lookup that already succeeded. */
  lemma {:induction false} ResolveMonotone(t: Tree, p: Path, fewer: nat, more: nat)
    requires fewer <= more && Resolve(t, p, fewer).Some?
    ensures Resolve(t, p, more) == Resolve(t, p, fewer)
    decreases fewer
  {
    if t[p].SymlinkNode? {
      ResolveMonotone(t, t[p].target, fewer - 1, more - 1);
    }
  }

  /** In a well-formed namespace stat never reports a link. */
  lemma {:induction false} ResolveNeverLink(t: Tree, p: Path, hops: nat)
    requires WellFormed(t) && Resolve(t, p, hops).Some?
    ensures !IsSymlink(Resolve(t, p, hops).value)
    decreases hops
  {
    if t[p].SymlinkNode? {
      ResolveNeverLink(t, t[p].target, hops - 1);
    }
  }
}
