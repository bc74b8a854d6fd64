/**
 * The file type a directory listing reports: taken from the directory
 * entry's `d_type`, or, when that is unknown, from the `st_mode` of a
 * `stat` of the entry. The `DT_*` and `S_IF*` values are those of Linux.
 */
module FileTypes {
  import opened Wrappers

  /** `Eina_File_Type`. */
  datatype FileType = Unknown | Fifo | Chr | Dir | Blk | Reg | Lnk | Sock | Wht

  const DT_UNKNOWN: nat := 0
  const DT_FIFO: nat := 1
  const DT_CHR: nat := 2
  const DT_DIR: nat := 4
  const DT_BLK: nat := 6
  const DT_REG: nat := 8
  const DT_LNK: nat := 10
  const DT_SOCK: nat := 12
  const DT_WHT: nat := 14

  /** The `switch` on `d_type` in the direct listing iterator. */
  function TypeFromDirent(dtype: nat): FileType
  {
    if dtype == DT_FIFO then Fifo
    else if dtype == DT_CHR then Chr
    else if dtype == DT_DIR then Dir
    else if dtype == DT_BLK then Blk
    else if dtype == DT_REG then Reg
    else if dtype == DT_LNK then Lnk
    else if dtype == DT_SOCK then Sock
    else if dtype == DT_WHT then Wht
    else Unknown
  }

  /** The `d_type` that denotes each file type (reference table). */
  function DirentOf(t: FileType): nat
  {
    match t
    case Unknown => DT_UNKNOWN
    case Fifo => DT_FIFO
    case Chr => DT_CHR
    case Dir => DT_DIR
    case Blk => DT_BLK
    case Reg => DT_REG
    case Lnk => DT_LNK
    case Sock => DT_SOCK
    case Wht => DT_WHT
  }

  /** Every type is recognised from its own `d_type`. */
  lemma DirentRoundTrip(t: FileType)
    ensures TypeFromDirent(DirentOf(t)) == t
  {
  }

  /** A `d_type` outside the table is reported as unknown. */
  lemma DirentOthersUnknown(dtype: nat)
    requires forall t: FileType :: DirentOf(t) != dtype
    ensures TypeFromDirent(dtype) == Unknown
  {
    assert DirentOf(Fifo) != dtype && DirentOf(Chr) != dtype && DirentOf(Dir) != dtype;
    assert DirentOf(Blk) != dtype && DirentOf(Reg) != dtype && DirentOf(Lnk) != dtype;
    assert DirentOf(Sock) != dtype && DirentOf(Wht) != dtype;
  }

  const S_IFMT: nat := 0xF000
  const S_IFIFO: nat := 0x1000
  const S_IFCHR: nat := 0x2000
  const S_IFDIR: nat := 0x4000
  const S_IFBLK: nat := 0x6000
  const S_IFREG: nat := 0x8000
  const S_IFLNK: nat := 0xA000
  const S_IFSOCK: nat := 0xC000

  /** `mode & S_IFMT`. */
  function FormatBits(mode: nat): (f: nat)
    ensures f % 0x1000 == 0 && f <= S_IFMT
  {
    (mode / 0x1000 % 16) * 0x1000
  }

  /** The `S_IS*` chain of `eina_file_statat`, tested in its order. */
  function TypeFromMode(mode: nat): FileType
  {
    var f := FormatBits(mode);
    if f == S_IFREG then Reg
    else if f == S_IFDIR then Dir
    else if f == S_IFCHR then Chr
    else if f == S_IFBLK then Blk
    else if f == S_IFIFO then Fifo
    else if f == S_IFLNK then Lnk
    else if f == S_IFSOCK then Sock
    else Unknown
  }

  /** The format bits that denote each type a `stat` can report. */
  function ModeOf(t: FileType): Option<nat>
  {
    match t
    case Fifo => Some(S_IFIFO)
    case Chr => Some(S_IFCHR)
    case Dir => Some(S_IFDIR)
    case Blk => Some(S_IFBLK)
    case Reg => Some(S_IFREG)
    case Lnk => Some(S_IFLNK)
    case Sock => Some(S_IFSOCK)
    case _ => None
  }

  /** Only the format bits of the mode matter: permission bits never change the type. */
  lemma TypeFromModeIgnoresPermissions(fmt: nat, perms: nat)
    requires perms < 0x1000
    ensures TypeFromMode(fmt * 0x1000 + perms) == TypeFromMode(fmt * 0x1000)
  {
    assert (fmt * 0x1000 + perms) / 0x1000 == fmt;
    assert (fmt * 0x1000) / 0x1000 == fmt;
  }

  /** The directory entry and the `stat` of the same file agree on its type. */
  lemma DirentAgreesWithMode(t: FileType, perms: nat)
    requires ModeOf(t).Some? && perms < 0x1000
    ensures TypeFromMode(ModeOf(t).value + perms) == t == TypeFromDirent(DirentOf(t))
  {
    var m := ModeOf(t).value;
    assert m == (m / 0x1000) * 0x1000;
    TypeFromModeIgnoresPermissions(m / 0x1000, perms);
  }

  /**
   * `eina_file_statat` on an entry whose listed type is `listed`; `st` is
   * the mode `fstatat` gives, `None` when it fails. Returns the entry's new
   * type and the call's result.
   */
  function StatAt(listed: FileType, st: Option<nat>): (r: (FileType, int))
    ensures st.None? ==> r.1 == -1 && r.0 == (if listed == Lnk then Lnk else Unknown)
    ensures st.Some? ==> r.1 == 0
    ensures st.Some? && listed != Unknown ==> r.0 == listed
  {
    if st.None? then
      (if listed != Lnk then Unknown else listed, -1)
    else if listed == Unknown then (TypeFromMode(st.value), 0)
    else (listed, 0)
  }

  /**
   * The type the stat listing reports: the `d_type` one, completed by a
   * `stat` when that is unknown.
   */
  function ListedType(dtype: nat, st: Option<nat>): (t: FileType)
    ensures TypeFromDirent(dtype) != Unknown ==> t == TypeFromDirent(dtype)
    ensures TypeFromDirent(dtype) == Unknown && st.Some? ==> t == TypeFromMode(st.value)
    ensures TypeFromDirent(dtype) == Unknown && st.None? ==> t == Unknown
  {
    var t0 := TypeFromDirent(dtype);
    if t0 == Unknown then
      var (t1, res) := StatAt(t0, st);
      if res != 0 then Unknown else t1
    else t0
  }
}
