/**
 * The filesystem as the classifier sees it: three system calls, treated as an
 * oracle. `stat` follows symbolic links, `lstat` does not, `readlink` reads a
 * link's target. A path missing from one of the maps is a call that returns -1.
 */
module Filesystem {

  import opened Wrappers

  /** A path or link target: the bytes of a NUL-terminated C string, one char per byte. */
  type Path = string

  /** The `st_mode` word of `struct stat`. */
  type Mode = nat

  // The file-type field of st_mode (S_IFMT) and the POSIX values it takes.
  const TypeMask: nat := 0xF000      // S_IFMT   0170000
  const FifoType: nat := 0x1000      // S_IFIFO  0010000
  const CharType: nat := 0x2000      // S_IFCHR  0020000
  const DirType: nat := 0x4000       // S_IFDIR  0040000
  const BlockType: nat := 0x6000     // S_IFBLK  0060000
  const RegularType: nat := 0x8000   // S_IFREG  0100000
  const SymlinkType: nat := 0xA000   // S_IFLNK  0120000
  const SocketType: nat := 0xC000    // S_IFSOCK 0140000

  /** `m & S_IFMT`: bits 12 to 15 of the mode word, in place. */
  function TypeBits(m: Mode): (t: nat)
    ensures t % 0x1000 == 0 && t <= TypeMask
  {
    m / 0x1000 % 0x10 * 0x1000
  }

  // The S_ISxxx macros.
  predicate IsBlockDevice(m: Mode) { TypeBits(m) == BlockType }
  predicate IsCharDevice(m: Mode) { TypeBits(m) == CharType }
  predicate IsDirectory(m: Mode) { TypeBits(m) == DirType }
  predicate IsFifo(m: Mode) { TypeBits(m) == FifoType }
  predicate IsSymlink(m: Mode) { TypeBits(m) == SymlinkType }
  predicate IsRegular(m: Mode) { TypeBits(m) == RegularType }
  predicate IsSocket(m: Mode) { TypeBits(m) == SocketType }

  /**
   * The answers of the system calls. `stat` and `lstat` give the mode word of
   * the entry; `links` gives the whole target of a link, of which `readlink`
   * copies a prefix. The maps are independent of each other, so the oracle
   * also covers answers that change between two calls.
   */
  datatype Oracle = Oracle(stat: map<Path, Mode>, lstat: map<Path, Mode>, links: map<Path, seq<char>>)

  /** One query made to the oracle, recorded in the order it was made. */
  datatype Syscall = StatCall(path: Path) | LstatCall(path: Path) | ReadlinkCall(path: Path)

  /** `stat(path, &sb)`: the mode, or None where the call returns -1. */
  function Stat(fs: Oracle, path: Path): Option<Mode>
  {
    if path in fs.stat then Some(fs.stat[path]) else None
  }

  /** `lstat(path, &sb)`: the mode of the entry itself, or None where the call returns -1. */
  function Lstat(fs: Oracle, path: Path): Option<Mode>
  {
    if path in fs.lstat then Some(fs.lstat[path]) else None
  }

  /**
   * `readlink(path, buf, bufsiz)`: the bytes it places in `buf` (its return
   * value is their number), or None where it returns -1. It copies at most
   * `bufsiz` bytes of the target and adds no terminating NUL.
   */
  function ReadLink(fs: Oracle, path: Path, bufsiz: nat): (r: Option<seq<char>>)
    ensures r.Some? <==> path in fs.links
    ensures r.Some? ==> r.value <= fs.links[path]
    ensures r.Some? ==> |r.value| == if |fs.links[path]| <= bufsiz then |fs.links[path]| else bufsiz
  {
    if path !in fs.links then None
    else
      var target := fs.links[path];
      Some(if |target| <= bufsiz then target else target[..bufsiz])
  }
}
