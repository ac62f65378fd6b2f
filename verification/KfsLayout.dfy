/** The KFS superblock: magic, file count and eight 40-byte entries in the first
    328 bytes of sector 0, each entry a 32-byte NUL-terminated name, a start sector and a size. */
module KfsLayout {
  import opened Words
  import opened Disk

  const KFS_MAGIC: uint32 := 0x3053464B
  const KFS_MAX_FILES: nat := 8
  const NAME_BYTES: nat := 32
  const ENTRY_BYTES: nat := 40
  const HEADER_BYTES: nat := 8
  const SUPERBLOCK_BYTES: nat := 328

  function EntryAt(i: nat): nat {
    HEADER_BYTES + ENTRY_BYTES * i
  }

  function Magic(sb: seq<byte>): uint32
    requires |sb| == SECTOR
  {
    U32(sb, 0)
  }

  function Count(sb: seq<byte>): uint32
    requires |sb| == SECTOR
  {
    U32(sb, 4)
  }

  function NameField(sb: seq<byte>, i: nat): seq<byte>
    requires |sb| == SECTOR && i < KFS_MAX_FILES
  {
    sb[EntryAt(i)..EntryAt(i) + NAME_BYTES]
  }

  function StartLba(sb: seq<byte>, i: nat): uint32
    requires |sb| == SECTOR && i < KFS_MAX_FILES
  {
    U32(sb, EntryAt(i) + 32)
  }

  function Size(sb: seq<byte>, i: nat): uint32
    requires |sb| == SECTOR && i < KFS_MAX_FILES
  {
    U32(sb, EntryAt(i) + 36)
  }

  /** The C string at the front of a buffer: everything up to the first NUL. */
  ghost function CStr(b: seq<byte>): seq<byte> {
    if b == [] || b[0] == 0 then [] else [b[0]] + CStr(b[1..])
  }

  lemma {:induction false} CStrOf(name: seq<byte>, rest: seq<byte>)
    requires 0 !in name
    ensures CStr(name + [0] + rest) == name
  {
    var b := name + [0] + rest;
    if name != [] {
      assert b[1..] == name[1..] + [0] + rest;
      CStrOf(name[1..], rest);
      assert name == [name[0]] + name[1..];
    }
  }

  /** After a common prefix without NUL, the first bytes that end or differ decide. */
  lemma {:induction false} CStrDiffer(a: seq<byte>, b: seq<byte>, i: nat)
    requires i < |a| && i < |b| && (forall j :: 0 <= j < i ==> a[j] == b[j] != 0)
    requires a[i] == 0 || a[i] != b[i]
    ensures a[i] == b[i] <==> CStr(a) == CStr(b)
  {
    if i > 0 {
      CStrDiffer(a[1..], b[1..], i - 1);
      assert CStr(a)[1..] == CStr(a[1..]) && CStr(b)[1..] == CStr(b[1..]);
    }
  }

  /** strcmp on two NUL-terminated buffers. */
  method StrCmp(a: seq<byte>, b: seq<byte>) returns (r: int)
    requires 0 in a && 0 in b
    ensures r == 0 <==> CStr(a) == CStr(b)
  {
    var i := 0;
    while a[i] != 0 && a[i] == b[i]
      invariant i < |a| && i < |b| && (forall j :: 0 <= j < i ==> a[j] == b[j] != 0)
      invariant 0 in a[i..] && 0 in b[i..]
      decreases |a| - i
    {
      i := i + 1;
    }
    CStrDiffer(a, b, i);
    return a[i] as int - b[i] as int;
  }

  /** Entry i carries the given name. */
  ghost predicate Named(sb: seq<byte>, i: nat, name: seq<byte>)
    requires |sb| == SECTOR && i < KFS_MAX_FILES
  {
    CStr(NameField(sb, i)) == name
  }

  /** Sectors that `size` bytes take, in the 32-bit arithmetic of the code. */
  function SectorsFor(size: uint32): (n: nat)
    ensures n < 0x80_0000
    ensures size <= WORD_LIMIT - SECTOR ==> SECTOR * n >= size && (n > 0 ==> SECTOR * (n - 1) < size)
    ensures size > WORD_LIMIT - SECTOR ==> n == 0
  {
    (size + 511) % WORD_LIMIT / SECTOR
  }

  /** Sectors taken by the first i files. */
  function SectorsBefore(sb: seq<byte>, i: nat): (n: nat)
    requires |sb| == SECTOR && i <= KFS_MAX_FILES
    ensures n <= 0x80_0000 * i
  {
    if i == 0 then 0 else SectorsBefore(sb, i - 1) + SectorsFor(Size(sb, i - 1))
  }

  /** A well-laid-out superblock: files lie one after the other from sector 1 on. */
  ghost predicate LaidOut(sb: seq<byte>) {
    && |sb| == SECTOR && Magic(sb) == KFS_MAGIC && Count(sb) <= KFS_MAX_FILES
    && forall i: nat :: i < Count(sb) ==>
         StartLba(sb, i) == 1 + SectorsBefore(sb, i) && 0 in NameField(sb, i)
  }

  lemma {:induction false} SectorsBeforeGrows(sb: seq<byte>, i: nat, j: nat)
    requires |sb| == SECTOR && i < j <= KFS_MAX_FILES
    ensures SectorsBefore(sb, i) + SectorsFor(Size(sb, i)) <= SectorsBefore(sb, j)
    decreases j
  {
    if i < j - 1 {
      SectorsBeforeGrows(sb, i, j - 1);
    }
  }

  /** In such a superblock no two files share a sector, and none has sector 0. */
  lemma ExtentsAreDisjoint(sb: seq<byte>, i: nat, j: nat, k: nat)
    requires LaidOut(sb) && i < Count(sb) && j < Count(sb)
    requires StartLba(sb, i) <= k < StartLba(sb, i) + SectorsFor(Size(sb, i))
    ensures k != 0
    ensures StartLba(sb, j) <= k < StartLba(sb, j) + SectorsFor(Size(sb, j)) ==> i == j
  {
    if i < j {
      SectorsBeforeGrows(sb, i, j);
    } else if j < i {
      SectorsBeforeGrows(sb, j, i);
    }
  }

  /** `r` is the sector `sb` with the four bytes of the count replaced, and in entry n the bytes
      of the name, up to and with its NUL, and the size; the start sector is left open. */
  ghost predicate FilledIn(sb: seq<byte>, n: nat, count: seq<byte>, name0: seq<byte>, size: seq<byte>, r: seq<byte>)
    requires |sb| == SECTOR && n < KFS_MAX_FILES && |name0| <= NAME_BYTES
  {
    var e := EntryAt(n);
    && |r| == SECTOR
    && r[0..4] == sb[0..4] && r[4..8] == count && r[8..e] == sb[8..e]
    && r[e..e + |name0|] == name0 && r[e + |name0|..e + 32] == sb[e + |name0|..e + 32]
    && r[e + 36..e + 40] == size && r[e + 40..SECTOR] == sb[e + 40..SECTOR]
  }

  /** `r` is the superblock `sb` with one more file: the count, the bytes of the name and its
      NUL, the start sector and the size are written, and no other byte. */
  ghost predicate IsAppended(sb: seq<byte>, name: seq<byte>, size: uint32, r: seq<byte>)
    requires |sb| == SECTOR && Count(sb) < KFS_MAX_FILES && |name| < NAME_BYTES
  {
    var e := EntryAt(Count(sb));
    && FilledIn(sb, Count(sb), Le(Count(sb) + 1), name + [0], Le(size), r)
    && r[e + 32..e + 36] == Le(1 + SectorsBefore(sb, Count(sb)))
  }

  lemma AppendedCount(sb: seq<byte>, name: seq<byte>, size: uint32, r: seq<byte>)
    requires |sb| == SECTOR && Count(sb) < KFS_MAX_FILES && |name| < NAME_BYTES
    requires IsAppended(sb, name, size, r)
    ensures Magic(r) == Magic(sb) && Count(r) == Count(sb) + 1
  {
    LeReadsBack(Count(sb) + 1, r, 4);
  }

  ghost predicate SameEntry(a: seq<byte>, b: seq<byte>, i: nat)
    requires |a| == |b| == SECTOR && i < KFS_MAX_FILES
  {
    NameField(a, i) == NameField(b, i) && StartLba(a, i) == StartLba(b, i) && Size(a, i) == Size(b, i)
  }

  /** Entries are determined by the bytes between the header and the end of the entry. */
  lemma EntryOfBytes(a: seq<byte>, b: seq<byte>, n: nat, i: nat)
    requires |a| == |b| == SECTOR && i < n <= KFS_MAX_FILES
    requires a[HEADER_BYTES..EntryAt(n)] == b[HEADER_BYTES..EntryAt(n)]
    ensures SameEntry(a, b, i)
  {
    var e, end := EntryAt(i), EntryAt(n);
    SliceOfEqual(a, b, HEADER_BYTES, end, e, e + 32);
    SliceOfEqual(a, b, HEADER_BYTES, end, e + 32, e + 36);
    SliceOfEqual(a, b, HEADER_BYTES, end, e + 36, e + 40);
  }

  lemma {:induction false} SameSectorsBefore(a: seq<byte>, b: seq<byte>, i: nat)
    requires |a| == |b| == SECTOR && i <= KFS_MAX_FILES
    requires forall j: nat :: j < i ==> SameEntry(a, b, j)
    ensures SectorsBefore(a, i) == SectorsBefore(b, i)
  {
    if i > 0 {
      SameSectorsBefore(a, b, i - 1);
      assert SameEntry(a, b, i - 1);
    }
  }

  /** The new entry has the name, the size, and the first sector after all others. */
  lemma AppendedEntry(sb: seq<byte>, name: seq<byte>, size: uint32, r: seq<byte>)
    requires |sb| == SECTOR && Count(sb) < KFS_MAX_FILES && |name| < NAME_BYTES && 0 !in name
    requires IsAppended(sb, name, size, r)
    ensures var n := Count(sb);
            && Named(r, n, name) && 0 in NameField(r, n)
            && Size(r, n) == size && StartLba(r, n) == 1 + SectorsBefore(sb, n)
  {
    hide SectorsBefore, Le, LeValue, CStr;
    var n := Count(sb);
    var e := EntryAt(n);
    LeReadsBack(1 + SectorsBefore(sb, n), r, e + 32);
    LeReadsBack(size, r, e + 36);
    TerminatedField(name, NameField(r, n), r, e);
  }

  lemma TerminatedField(name: seq<byte>, field: seq<byte>, r: seq<byte>, e: nat)
    requires |name| < NAME_BYTES && 0 !in name && e + NAME_BYTES <= |r|
    requires field == r[e..e + NAME_BYTES] && r[e..e + |name| + 1] == name + [0]
    ensures CStr(field) == name && 0 in field
  {
    assert field[..|name| + 1] == r[e..e + |name| + 1];
    assert field == (name + [0]) + field[|name| + 1..];
    CStrOf(name, field[|name| + 1..]);
    assert field[|name|] == 0;
  }

  lemma OldEntriesLaidOut(sb: seq<byte>, r: seq<byte>, i: nat)
    requires LaidOut(sb) && |r| == SECTOR && i < Count(sb)
    requires forall j: nat :: j < Count(sb) ==> SameEntry(r, sb, j)
    ensures StartLba(r, i) == 1 + SectorsBefore(r, i) && 0 in NameField(r, i)
  {
    SameSectorsBefore(r, sb, i);
    assert SameEntry(r, sb, i);
  }

  lemma LaidOutWithOneMore(sb: seq<byte>, r: seq<byte>)
    requires LaidOut(sb) && |r| == SECTOR && Magic(r) == Magic(sb) && Count(r) == Count(sb) + 1 <= KFS_MAX_FILES
    requires forall i: nat :: i < Count(sb) ==> SameEntry(r, sb, i)
    requires StartLba(r, Count(sb)) == 1 + SectorsBefore(sb, Count(sb)) && 0 in NameField(r, Count(sb))
    ensures LaidOut(r)
  {
    SameSectorsBefore(r, sb, Count(sb));
    forall i: nat | i < Count(r) ensures StartLba(r, i) == 1 + SectorsBefore(r, i) && 0 in NameField(r, i) {
      if i < Count(sb) {
        OldEntriesLaidOut(sb, r, i);
      }
    }
  }

  /** What one more file means for a reader of the superblock: the layout is kept, so is every
      earlier entry, and the new one has the name, the size and the first free sector. */
  ghost predicate AppendedEntryOf(sb: seq<byte>, name: seq<byte>, size: uint32, r: seq<byte>)
    requires |sb| == SECTOR && Count(sb) < KFS_MAX_FILES
  {
    var n := Count(sb);
    && LaidOut(r) && Count(r) == n + 1
    && (forall i: nat :: i < n ==> SameEntry(r, sb, i))
    && Named(r, n, name) && Size(r, n) == size && StartLba(r, n) == 1 + SectorsBefore(sb, n)
  }

  lemma AppendedMeans(sb: seq<byte>, name: seq<byte>, size: uint32, r: seq<byte>)
    requires LaidOut(sb) && Count(sb) < KFS_MAX_FILES && |name| < NAME_BYTES && 0 !in name
    requires IsAppended(sb, name, size, r)
    ensures AppendedEntryOf(sb, name, size, r)
  {
    AppendedCount(sb, name, size, r);
    AppendedEntry(sb, name, size, r);
    forall i: nat | i < Count(sb) ensures SameEntry(r, sb, i) {
      EntryOfBytes(r, sb, Count(sb), i);
    }
    LaidOutWithOneMore(sb, r);
  }
}
