/**
 * The classifier `file()`: one label per path, chosen from the metadata the
 * oracle gives, with a single retry through `lstat` when `stat` fails.
 */
module Classifier {

  import opened Wrappers
  import opened Filesystem

  // The labels file() returns.
  const CannotOpen := "cannot open"
  const BlockSpecial := "block special"
  const CharacterSpecial := "character special"
  const DirectoryLabel := "directory"
  const FifoLabel := "FIFO"
  const RegularFile := "regular file"
  const DataFile := "data file"
  const SocketLabel := "socket"
  const LinkPrefix := "symbolic link to "

  const FixedLabels: set<string> :=
    {CannotOpen, BlockSpecial, CharacterSpecial, DirectoryLabel, FifoLabel, RegularFile, DataFile, SocketLabel}

  /** `char linkbuf[1024]`: one byte is kept for the terminating NUL. */
  const LinkBufSize: nat := 1024
  /** `static char buf[1048]`, the buffer snprintf writes the link description into. */
  const BufSize: nat := 1048

  /** The most a link description can hold: the prefix and a full linkbuf. */
  const MaxLinkLabel: nat := 17 + 1023

  /** What file() returns, with the queries it made on the way, in order. */
  datatype Outcome = Outcome(description: string, calls: seq<Syscall>)

  /** What `%s` reads of a char array: everything before the first NUL. */
  function CString(s: seq<char>): (r: seq<char>)
    ensures r <= s && '\0' !in r
    ensures r == s || s[|r|] == '\0'
  {
    if s == [] || s[0] == '\0' then [] else [s[0]] + CString(s[1..])
  }

  /** `snprintf(buf, size, "%s", s)`: at most size - 1 characters of s and a NUL. */
  function Snprintf(size: nat, s: string): (r: string)
    requires size > 0
    ensures r <= s && |r| < size
    ensures |s| < size ==> r == s
    ensures |s| >= size ==> |r| == size - 1
  {
    if |s| < size then s else s[..size - 1]
  }

  /** The link description of a target with no NUL: the prefix and at most 1023 bytes of it. */
  function LinkDescriptionOf(target: Path): string
  {
    LinkPrefix + if |target| <= LinkBufSize - 1 then target else target[..LinkBufSize - 1]
  }

  predicate IsLinkLabel(s: string) { LinkPrefix <= s }

  /** A result file() may return: a fixed label, or a link description of bounded length. */
  predicate IsLabel(s: string)
  {
    s in FixedLabels || (IsLinkLabel(s) && |s| <= MaxLinkLabel)
  }

  /**
   * file(filename, symlinks, ignoremagic). With `symlinks` false it asks
   * `stat`, and when that fails calls itself once with `symlinks` true; with
   * `symlinks` true it asks `lstat` and never retries. The tests on the mode
   * then run in the order block, character, directory, FIFO, symbolic link,
   * regular, socket; the first that holds decides the label.
   */
  function File(fs: Oracle, filename: Path, symlinks: bool, ignoremagic: bool): (r: Outcome)
    decreases !symlinks
    ensures IsLabel(r.description)
    ensures 1 <= |r.calls| <= 3
    ensures r.calls[0] == if symlinks then LstatCall(filename) else StatCall(filename)
    ensures forall k :: 0 <= k < |r.calls| ==> r.calls[k].path == filename
  {
    var probe := if symlinks then LstatCall(filename) else StatCall(filename);
    var sb := if symlinks then Lstat(fs, filename) else Stat(fs, filename);
    if sb.None? then
      if !symlinks then
        var retry := File(fs, filename, true, ignoremagic);
        Outcome(retry.description, [probe] + retry.calls)
      else
        Outcome(CannotOpen, [probe])
    else
      var m := sb.value;
      if IsBlockDevice(m) then Outcome(BlockSpecial, [probe])
      else if IsCharDevice(m) then Outcome(CharacterSpecial, [probe])
      else if IsDirectory(m) then Outcome(DirectoryLabel, [probe])
      else if IsFifo(m) then Outcome(FifoLabel, [probe])
      else if IsSymlink(m) then
        match ReadLink(fs, filename, LinkBufSize - 1)
        case None => Outcome(CannotOpen, [probe, ReadlinkCall(filename)])
        case Some(linkbuf) =>
          assert |LinkPrefix + CString(linkbuf)| <= MaxLinkLabel;
          Outcome(Snprintf(BufSize, LinkPrefix + CString(linkbuf)), [probe, ReadlinkCall(filename)])
      else if IsRegular(m) then
        Outcome(if ignoremagic then RegularFile else DataFile, [probe])
      else if IsSocket(m) then Outcome(SocketLabel, [probe])
      else Outcome(CannotOpen, [probe])
  }

  // ---------------------------------------------------------------------
  // A reference description, independent of the if-chain and the recursion

  /** The file type named by the S_IFMT field, read off as a single hex digit. */
  datatype Kind = BlockDev | CharDev | Dir | Fifo | Link | Reg | Sock | Unknown

  function KindOf(m: Mode): Kind
  {
    match m / 0x1000 % 0x10
    case 1 => Fifo
    case 2 => CharDev
    case 4 => Dir
    case 6 => BlockDev
    case 8 => Reg
    case 10 => Link
    case 12 => Sock
    case _ => Unknown
  }

  /**
   * The metadata the type tests end up looking at: lstat's answer when links
   * are not to be followed, otherwise stat's answer, or lstat's when stat fails.
   */
  function Examined(fs: Oracle, filename: Path, symlinks: bool): Option<Mode>
  {
    if symlinks || filename !in fs.stat then Lstat(fs, filename) else Stat(fs, filename)
  }

  /** The description each kind of entry is meant to get; a link is described without any truncation of the description itself. */
  function Describe(fs: Oracle, filename: Path, sb: Option<Mode>, ignoremagic: bool): string
  {
    match sb
    case None => CannotOpen
    case Some(m) =>
      match KindOf(m)
      case BlockDev => BlockSpecial
      case CharDev => CharacterSpecial
      case Dir => DirectoryLabel
      case Fifo => FifoLabel
      case Link =>
        (match ReadLink(fs, filename, LinkBufSize - 1)
         case None => CannotOpen
         case Some(t) => LinkPrefix + CString(t))
      case Reg => if ignoremagic then RegularFile else DataFile
      case Sock => SocketLabel
      case Unknown => CannotOpen
  }

  /** Each S_ISxxx test holds exactly when the type field names that kind. */
  lemma KindOfTests(m: Mode)
    ensures IsBlockDevice(m) <==> KindOf(m) == BlockDev
    ensures IsCharDevice(m) <==> KindOf(m) == CharDev
    ensures IsDirectory(m) <==> KindOf(m) == Dir
    ensures IsFifo(m) <==> KindOf(m) == Fifo
    ensures IsSymlink(m) <==> KindOf(m) == Link
    ensures IsRegular(m) <==> KindOf(m) == Reg
    ensures IsSocket(m) <==> KindOf(m) == Sock
  {
  }

  /**
   * The priority chain, the retry and the snprintf into `buf` together give
   * exactly the reference description of the metadata finally examined.
   */
  lemma {:induction false} FileDescribes(fs: Oracle, filename: Path, symlinks: bool, ignoremagic: bool)
    ensures File(fs, filename, symlinks, ignoremagic).description
            == Describe(fs, filename, Examined(fs, filename, symlinks), ignoremagic)
    decreases !symlinks
  {
    if !symlinks && filename !in fs.stat {
      FileDescribes(fs, filename, true, ignoremagic);
    } else {
      var sb := if symlinks then Lstat(fs, filename) else Stat(fs, filename);
      if sb.Some? {
        KindOfTests(sb.value);
      }
    }
  }

  /**
   * The queries made: stat first unless `symlinks`; lstat only with
   * `symlinks` or once after stat failed; readlink only, and always, when
   * the examined entry is a link. So there is at most one retry.
   */
  lemma CallSequence(fs: Oracle, filename: Path, symlinks: bool, ignoremagic: bool)
    ensures var calls := File(fs, filename, symlinks, ignoremagic).calls;
            var probes := if symlinks then [LstatCall(filename)]
                          else if filename in fs.stat then [StatCall(filename)]
                          else [StatCall(filename), LstatCall(filename)];
            var sb := Examined(fs, filename, symlinks);
            calls == probes + (if sb.Some? && IsSymlink(sb.value) then [ReadlinkCall(filename)] else [])
  {
  }

  /**
   * Every failure ends in "cannot open": no metadata after the retry, a link
   * whose target cannot be read, or a type field that no test recognises;
   * and nothing else does.
   */
  lemma CannotOpenExactly(fs: Oracle, filename: Path, symlinks: bool, ignoremagic: bool)
    ensures var sb := Examined(fs, filename, symlinks);
            File(fs, filename, symlinks, ignoremagic).description == CannotOpen
            <==> sb.None?
                 || (KindOf(sb.value) == Link && filename !in fs.links)
                 || KindOf(sb.value) == Unknown
  {
    FileDescribes(fs, filename, symlinks, ignoremagic);
    var sb := Examined(fs, filename, symlinks);
    if sb.Some? && KindOf(sb.value) == Link && filename in fs.links {
      var t := ReadLink(fs, filename, LinkBufSize - 1).value;
      assert (LinkPrefix + CString(t))[0] != CannotOpen[0];
    }
  }

  /**
   * `ignoremagic` matters only for a regular file, which is "regular file"
   * with it and "data file" without it.
   */
  lemma IgnoreMagicOnlyRegular(fs: Oracle, filename: Path, symlinks: bool)
    ensures var sb := Examined(fs, filename, symlinks);
            var plain := File(fs, filename, symlinks, false).description;
            var ignoring := File(fs, filename, symlinks, true).description;
            (plain != ignoring <==> sb.Some? && IsRegular(sb.value))
            && (sb.Some? && IsRegular(sb.value) ==> plain == DataFile && ignoring == RegularFile)
  {
    FileDescribes(fs, filename, symlinks, false);
    FileDescribes(fs, filename, symlinks, true);
    var sb := Examined(fs, filename, symlinks);
    if sb.Some? {
      KindOfTests(sb.value);
    }
  }

  /** No fixed label can be mistaken for a link description. */
  lemma FixedLabelsAreNotLinks(s: string)
    requires s in FixedLabels
    ensures !IsLinkLabel(s)
  {
    if |s| >= |LinkPrefix| {
      assert s == CharacterSpecial;
      assert s[0] != LinkPrefix[0];
    }
  }

  /**
   * A link description comes only from an entry examined through lstat:
   * either `symlinks` was set or stat failed; and the entry was a link.
   * This needs the one thing stat promises here: having followed links, it
   * never reports one.
   */
  lemma LinkOnlyThroughLstat(fs: Oracle, filename: Path, symlinks: bool, ignoremagic: bool)
    requires filename in fs.stat ==> !IsSymlink(fs.stat[filename])
    ensures IsLinkLabel(File(fs, filename, symlinks, ignoremagic).description)
            ==> (symlinks || filename !in fs.stat)
                && filename in fs.lstat && IsSymlink(fs.lstat[filename])
  {
    FileDescribes(fs, filename, symlinks, ignoremagic);
    var sb := Examined(fs, filename, symlinks);
    var desc := File(fs, filename, symlinks, ignoremagic).description;
    if IsLinkLabel(desc) {
      if sb.None? || KindOf(sb.value) != Link {
        FixedLabelsAreNotLinks(desc);
      } else {
        KindOfTests(sb.value);
      }
    }
  }

  /**
   * A link whose target holds no NUL is described as the prefix followed by
   * the first 1023 bytes of the target, at most 1040 bytes in all, which
   * the 1048-byte buffer holds whole.
   */
  lemma LinkDescription(fs: Oracle, filename: Path, symlinks: bool, ignoremagic: bool)
    requires var sb := Examined(fs, filename, symlinks); sb.Some? && IsSymlink(sb.value)
    requires filename in fs.links && '\0' !in fs.links[filename]
    ensures var desc := File(fs, filename, symlinks, ignoremagic).description;
            desc == LinkDescriptionOf(fs.links[filename])
            && |desc| <= MaxLinkLabel && |desc| < BufSize
  {
    FileDescribes(fs, filename, symlinks, ignoremagic);
    KindOfTests(Examined(fs, filename, symlinks).value);
    var t := fs.links[filename];
    var kept := ReadLink(fs, filename, LinkBufSize - 1).value;
    assert kept == if |t| <= LinkBufSize - 1 then t else t[..LinkBufSize - 1];
    assert '\0' !in kept by {
      forall k | 0 <= k < |kept| ensures kept[k] != '\0' {
        assert kept[k] == t[k];
      }
    }
    NoNulCString(kept);
  }

  lemma {:induction false} NoNulCString(s: seq<char>)
    requires '\0' !in s
    ensures CString(s) == s
  {
    if s != [] {
      assert '\0' !in s[1..] by {
        forall k | 0 <= k < |s| - 1 ensures s[1..][k] != '\0' {
          assert s[1..][k] == s[k + 1];
        }
      }
      NoNulCString(s[1..]);
    }
  }
}
