/** nand-ftl-scan.py: the logical-to-physical map rebuilt from a raw dump, and reads through it. */
module NandFtl {
  import opened Bytes

  const PAGE := 16448
  const CHUNK := 4112
  const BUFFER_PAGES := 256
  const GOOD := 0x40
  const PAGE_LIMIT := 0x400_0000

  /** One dump file: its pages, and one status byte per page. */
  datatype DumpFile = DumpFile(bin: seq<byte>, st: seq<byte>)

  /** One logical page found in a dump, and where. */
  datatype Copy = Copy(lba: nat, stamp: nat, file: nat, page: nat, chunk: nat)

  function Pages(f: DumpFile): nat {
    |f.bin| / PAGE
  }

  // ---- what a dump holds ------------------------------------------------------------------------

  lemma ChunkInside(f: DumpFile, p: nat, k: nat)
    requires p < Pages(f) && k < 4
    ensures p * PAGE + k * CHUNK + CHUNK <= |f.bin|
  {
    assert (p + 1) * PAGE <= Pages(f) * PAGE <= |f.bin|;
  }

  function ChunkBytes(f: DumpFile, p: nat, k: nat): (c: seq<byte>)
    requires p < Pages(f) && k < 4
    ensures |c| == CHUNK
  {
    ChunkInside(f, p, k);
    f.bin[p * PAGE + k * CHUNK..p * PAGE + k * CHUNK + CHUNK]
  }

  predicate GoodPage(f: DumpFile, p: nat) {
    p < |f.st| && f.st[p] == GOOD
  }

  /** The copy chunk k of page p stands for, if it holds user data. */
  function CopyOf(f: DumpFile, fi: nat, p: nat, k: nat): seq<Copy>
    requires p < Pages(f) && k < 4
  {
    var m := ChunkBytes(f, p, k)[1024..1040];
    if m[0] == 1 then [Copy(LE(m[8..12]), LE(m[2..8]), fi, p, k)] else []
  }

  function PageCopies(f: DumpFile, fi: nat, p: nat, k: nat): seq<Copy>
    requires p < Pages(f) && k <= 4
  {
    if k == 0 then [] else PageCopies(f, fi, p, k - 1) + CopyOf(f, fi, p, k - 1)
  }

  function FileCopies(f: DumpFile, fi: nat, n: nat): seq<Copy>
    requires n <= Pages(f)
  {
    if n == 0 then []
    else FileCopies(f, fi, n - 1) + if GoodPage(f, n - 1) then PageCopies(f, fi, n - 1, 4) else []
  }

  /** Every copy in the first m files, in scan order. */
  function Copies(files: seq<DumpFile>, m: nat): seq<Copy>
    requires m <= |files|
  {
    if m == 0 then [] else Copies(files, m - 1) + FileCopies(files[m - 1], m - 1, Pages(files[m - 1]))
  }

  function AllCopies(files: seq<DumpFile>): seq<Copy> {
    Copies(files, |files|)
  }

  // ---- the live copy ----------------------------------------------------------------------------

  /** The copy of an LBA with the highest stamp, the first of them in scan order. */
  function Live(cs: seq<Copy>, lba: nat): Option<Copy>
    decreases |cs|
  {
    if cs == [] then None
    else
      var before, c := Live(cs[..|cs| - 1], lba), cs[|cs| - 1];
      if c.lba == lba && (before.None? || c.stamp > before.value.stamp) then Some(c) else before
  }

  lemma {:induction false} LiveIsHighest(cs: seq<Copy>, lba: nat)
    ensures match Live(cs, lba)
            case None => forall c :: c in cs ==> c.lba != lba
            case Some(b) => b in cs && b.lba == lba && forall c :: c in cs && c.lba == lba ==> c.stamp <= b.stamp
    decreases |cs|
  {
    if cs != [] {
      var before := cs[..|cs| - 1];
      LiveIsHighest(before, lba);
      assert cs == before + [cs[|cs| - 1]];
    }
  }

  // ---- the map ----------------------------------------------------------------------------------

  /** file << 28 | page << 2 | chunk */
  function Place(c: Copy): nat {
    c.file * 0x1000_0000 + c.page * 4 + c.chunk
  }

  lemma PlaceParts(c: Copy)
    requires c.page < PAGE_LIMIT && c.chunk < 4
    ensures Place(c) / 0x1000_0000 == c.file && Place(c) / 4 % PAGE_LIMIT == c.page && Place(c) % 4 == c.chunk
  {
    var w := Place(c);
    assert w / 4 == c.file * PAGE_LIMIT + c.page;
    assert w / 0x1000_0000 == w / 4 / PAGE_LIMIT;
  }

  function StampOf(c: Option<Copy>): int {
    if c.Some? then c.value.stamp else -1
  }

  function PlaceOf(c: Option<Copy>): nat {
    if c.Some? then Place(c.value) else 0
  }

  /** The two arrays say which copy is live for every LBA. */
  ghost predicate MapHolds(stamps: seq<int>, places: seq<int>, cs: seq<Copy>) {
    |stamps| == |places| &&
    forall l :: 0 <= l < |stamps| ==> stamps[l] == StampOf(Live(cs, l)) && places[l] == PlaceOf(Live(cs, l))
  }

  lemma MapStep(stamps: seq<int>, places: seq<int>, cs: seq<Copy>, c: Copy, stamps': seq<int>, places': seq<int>)
    requires MapHolds(stamps, places, cs)
    requires if c.lba < |stamps| && c.stamp > stamps[c.lba]
             then stamps' == stamps[c.lba := c.stamp] && places' == places[c.lba := Place(c)]
             else stamps' == stamps && places' == places
    ensures MapHolds(stamps', places', cs + [c])
  {
    assert (cs + [c])[..|cs|] == cs;
    forall l | 0 <= l < |stamps'|
      ensures stamps'[l] == StampOf(Live(cs + [c], l)) && places'[l] == PlaceOf(Live(cs + [c], l))
    {
      assert stamps[l] == StampOf(Live(cs, l));
      hide Live, Place;
      LiveSnoc(cs, c, l);
    }
  }

  lemma LiveSnoc(cs: seq<Copy>, c: Copy, lba: nat)
    ensures Live(cs + [c], lba) == if c.lba == lba && c.stamp > StampOf(Live(cs, lba)) then Some(c) else Live(cs, lba)
  {
    assert (cs + [c])[..|cs|] == cs;
  }

  /** One 4 KB chunk. */
  method ScanChunk(f: DumpFile, fi: nat, p: nat, k: nat, stamps: array<int>, places: array<int>, ghost cs: seq<Copy>)
    requires p < Pages(f) && k < 4 && stamps != places && stamps.Length == places.Length
    requires MapHolds(stamps[..], places[..], cs)
    modifies stamps, places
    ensures MapHolds(stamps[..], places[..], cs + CopyOf(f, fi, p, k))
  {
    hide MapHolds, ChunkBytes, Place;
    var m := ChunkBytes(f, p, k)[1024..1040];
    if m[0] != 1 {
      assert cs + [] == cs;
      return;
    }
    var stamp, lba := LE(m[2..8]), LE(m[8..12]);
    ghost var oldStamps, oldPlaces := stamps[..], places[..];
    var c := Copy(lba, stamp, fi, p, k);
    if lba < stamps.Length && stamp > stamps[lba] {
      stamps[lba] := stamp;
      places[lba] := Place(c);
      assert stamps[..] == oldStamps[lba := stamp] && places[..] == oldPlaces[lba := Place(c)];
    }
    MapStep(oldStamps, oldPlaces, cs, c, stamps[..], places[..]);
  }

  method ScanPage(f: DumpFile, fi: nat, p: nat, stamps: array<int>, places: array<int>, ghost cs: seq<Copy>)
    requires p < Pages(f) && stamps != places && stamps.Length == places.Length
    requires MapHolds(stamps[..], places[..], cs)
    modifies stamps, places
    ensures MapHolds(stamps[..], places[..], cs + if GoodPage(f, p) then PageCopies(f, fi, p, 4) else [])
  {
    hide MapHolds, CopyOf;
    assert cs + [] == cs;
    if p >= |f.st| || f.st[p] != GOOD {
      return;
    }
    for k := 0 to 4
      invariant MapHolds(stamps[..], places[..], cs + PageCopies(f, fi, p, k))
    {
      ScanChunk(f, fi, p, k, stamps, places, cs + PageCopies(f, fi, p, k));
      assert cs + PageCopies(f, fi, p, k) + CopyOf(f, fi, p, k) == cs + PageCopies(f, fi, p, k + 1);
    }
  }

  /** One dump file, read 256 pages at a time; a part of a page at its end is ignored. */
  method ScanFile(f: DumpFile, fi: nat, stamps: array<int>, places: array<int>, ghost cs: seq<Copy>)
    requires stamps != places && stamps.Length == places.Length
    requires MapHolds(stamps[..], places[..], cs)
    modifies stamps, places
    ensures MapHolds(stamps[..], places[..], cs + FileCopies(f, fi, Pages(f)))
  {
    hide MapHolds, PageCopies, GoodPage;
    assert cs + [] == cs;
    var pg, pos := 0, 0;
    while pos < |f.bin|
      invariant pg <= Pages(f)
      invariant pos == pg * PAGE || (pos == |f.bin| && pg == Pages(f))
      invariant MapHolds(stamps[..], places[..], cs + FileCopies(f, fi, pg))
      decreases |f.bin| - pos
    {
      var got := Min(PAGE * BUFFER_PAGES, |f.bin| - pos);
      BufferPages(|f.bin|, pg, got);
      for i := 0 to got / PAGE
        invariant MapHolds(stamps[..], places[..], cs + FileCopies(f, fi, pg + i))
      {
        ghost var before := cs + FileCopies(f, fi, pg + i);
        ScanPage(f, fi, pg + i, stamps, places, before);
        assert before + (if GoodPage(f, pg + i) then PageCopies(f, fi, pg + i, 4) else [])
               == cs + FileCopies(f, fi, pg + i + 1);
      }
      pg, pos := pg + got / PAGE, pos + got;
    }
    WholeFile(|f.bin|, pg, pos);
  }

  lemma BufferPages(total: nat, pg: nat, got: nat)
    requires pg * PAGE <= total && got == Min(PAGE * BUFFER_PAGES, total - pg * PAGE)
    ensures pg + got / PAGE <= total / PAGE
    ensures pg * PAGE + got == (pg + got / PAGE) * PAGE || (pg * PAGE + got == total && pg + got / PAGE == total / PAGE)
  {
  }

  lemma WholeFile(total: nat, pg: nat, pos: nat)
    requires pos >= total && pg <= total / PAGE
    requires pos == pg * PAGE || (pos == total && pg == total / PAGE)
    ensures pg == total / PAGE
  {
  }

  method Scan(files: seq<DumpFile>, nlba: nat) returns (stamps: array<int>, places: array<int>)
    ensures stamps.Length == nlba && places.Length == nlba
    ensures MapHolds(stamps[..], places[..], AllCopies(files))
  {
    stamps := new int[nlba](_ => -1);
    places := new int[nlba](_ => 0);
    for fi := 0 to |files|
      invariant MapHolds(stamps[..], places[..], Copies(files, fi))
    {
      hide MapHolds;
      ScanFile(files[fi], fi, stamps, places, Copies(files, fi));
    }
  }

  // ---- reading ----------------------------------------------------------------------------------

  /** The 4096 data bytes around the metadata of a chunk. */
  function DataOf(c: seq<byte>): (d: seq<byte>)
    requires |c| == CHUNK
    ensures |d| == 4096
  {
    c[..1024] + c[1040..]
  }

  const TWO63 := 0x8000_0000_0000_0000

  predicate Fits64(n: int) {
    -TWO63 <= n < TWO63
  }

  predicate InDump(files: seq<DumpFile>, c: Copy) {
    c.file < |files| && c.page < Pages(files[c.file]) && c.chunk < 4 && Fits64(c.stamp)
  }

  function CopyData(files: seq<DumpFile>, c: Copy): seq<byte>
    requires InDump(files, c)
  {
    DataOf(ChunkBytes(files[c.file], c.page, c.chunk))
  }

  lemma {:induction false} PageCopiesInside(f: DumpFile, fi: nat, p: nat, k: nat)
    requires p < Pages(f) && k <= 4
    ensures forall c :: c in PageCopies(f, fi, p, k) ==> c.file == fi && c.page == p && c.chunk < 4 && Fits64(c.stamp)
  {
    if k > 0 {
      PageCopiesInside(f, fi, p, k - 1);
      LEBound(ChunkBytes(f, p, k - 1)[1024..1040][2..8]);
      assert Pow256(6) == 0x1_0000_0000_0000;
    }
  }

  lemma {:induction false} FileCopiesInside(f: DumpFile, fi: nat, n: nat)
    requires n <= Pages(f)
    ensures forall c :: c in FileCopies(f, fi, n) ==> c.file == fi && c.page < n && c.chunk < 4 && Fits64(c.stamp)
  {
    if n > 0 {
      FileCopiesInside(f, fi, n - 1);
      PageCopiesInside(f, fi, n - 1, 4);
    }
  }

  lemma {:induction false} CopiesInside(files: seq<DumpFile>, m: nat)
    requires m <= |files|
    ensures forall c :: c in Copies(files, m) ==> InDump(files, c)
  {
    hide FileCopies, Pages;
    if m > 0 {
      CopiesInside(files, m - 1);
      FileCopiesInside(files[m - 1], m - 1, Pages(files[m - 1]));
    }
  }

  /** What is on the disk at an LBA. */
  function Content(files: seq<DumpFile>, lba: nat): Option<seq<byte>> {
    CopiesInside(files, |files|);
    LiveIsHighest(AllCopies(files), lba);
    match Live(AllCopies(files), lba)
    case None => None
    case Some(c) => Some(CopyData(files, c))
  }

  /** Files small enough for the page field of a place, as every dump file is (272384 pages at most). */
  predicate Sized(files: seq<DumpFile>) {
    forall f :: f in files ==> Pages(f) <= PAGE_LIMIT
  }

  // ---- the map file -----------------------------------------------------------------------------

  /** struct.error and IndexError. */
  datatype MapError = StructError | NoFile

  /** struct.pack("<qI", stamp, place) */
  function MapEntry(stamp: int, place: nat): (b: seq<byte>)
    requires Fits64(stamp)
    ensures |b| == 12
  {
    ToLE(if stamp < 0 then stamp + 2 * TWO63 else stamp, 8) + ToLE(place, 4)
  }

  function StampIn(b: seq<byte>): int
    requires |b| == 12
  {
    var n := LE(b[..8]);
    if n < TWO63 then n else n - 2 * TWO63
  }

  lemma EntryReads(stamp: int, place: nat)
    requires Fits64(stamp) && Fits32(place)
    ensures StampIn(MapEntry(stamp, place)) == stamp && LE(MapEntry(stamp, place)[8..]) == place
  {
    assert Pow256(4) == 0x1_0000_0000;
    assert Pow256(8) == 256 * (256 * (256 * (256 * Pow256(4))));
    hide ToLE, Pow256, LE;
    var n := if stamp < 0 then stamp + 2 * TWO63 else stamp;
    LERoundTrip(n, 8);
    LERoundTrip(place, 4);
    var b := MapEntry(stamp, place);
    assert b[..8] == ToLE(n, 8) && b[8..] == ToLE(place, 4);
  }

  predicate Writable(stamps: seq<int>, places: seq<int>) {
    |stamps| == |places| && forall l :: 0 <= l < |stamps| ==> Fits64(stamps[l]) && places[l] >= 0
  }

  /** The entries of the first n LBAs. */
  function MapBytes(stamps: seq<int>, places: seq<int>, n: nat): (b: seq<byte>)
    requires n <= |stamps| && Writable(stamps, places)
    ensures |b| == 12 * n
  {
    if n == 0 then [] else MapBytes(stamps, places, n - 1) + MapEntry(stamps[n - 1], places[n - 1])
  }

  lemma {:induction false} MapEntryAt(stamps: seq<int>, places: seq<int>, n: nat, l: nat)
    requires l < n <= |stamps| && Writable(stamps, places)
    ensures MapBytes(stamps, places, n)[12 * l..12 * l + 12] == MapEntry(stamps[l], places[l])
  {
    hide MapEntry;
    if l < n - 1 {
      MapEntryAt(stamps, places, n - 1, l);
      assert MapBytes(stamps, places, n)[12 * l..12 * l + 12] == MapBytes(stamps, places, n - 1)[12 * l..12 * l + 12];
    }
  }

  /** Writing stops with struct.error at a place that does not fit 32 bits. */
  method WriteMap(stamps: seq<int>, places: seq<int>) returns (file: seq<byte>, ok: bool)
    requires Writable(stamps, places)
    ensures ok == forall l :: 0 <= l < |places| ==> Fits32(places[l])
    ensures ok ==> file == MapBytes(stamps, places, |stamps|)
    ensures !ok ==> exists l :: 0 <= l < |places| && !Fits32(places[l]) && file == MapBytes(stamps, places, l)
  {
    hide MapEntry;
    file := [];
    for l := 0 to |stamps|
      invariant file == MapBytes(stamps, places, l) && forall k :: 0 <= k < l ==> Fits32(places[k])
    {
      if !Fits32(places[l]) {
        return file, false;
      }
      file := file + MapEntry(stamps[l], places[l]);
    }
    ok := true;
  }

  // ---- reading through it -----------------------------------------------------------------------

  /** What is read through one entry. */
  function ReadEntry(files: seq<DumpFile>, b: seq<byte>): Result<Option<seq<byte>>, MapError>
    requires |b| == 12
  {
    var w := LE(b[8..]);
    if StampIn(b) < 0 then Ok(None)
    else if w / 0x1000_0000 >= |files| then Err(NoFile)
    else
      var off := w / 4 % PAGE_LIMIT * PAGE + w % 4 * CHUNK;
      var c := Slice(files[w / 0x1000_0000].bin, off, off + CHUNK);
      Ok(Some(Slice(c, 0, 1024) + Slice(c, 1040, |c|)))
  }

  /** Disk.read4k, over any map file and any dump. */
  function ReadAt(files: seq<DumpFile>, table: seq<byte>, lba: nat): Result<Option<seq<byte>>, MapError> {
    if 12 * lba + 12 > |table| then Err(StructError) else ReadEntry(files, table[12 * lba..12 * lba + 12])
  }

  lemma ChunkIs(f: DumpFile, p: nat, k: nat)
    requires p < Pages(f) && k < 4
    ensures p * PAGE + k * CHUNK + CHUNK <= |f.bin|
    ensures ChunkBytes(f, p, k) == f.bin[p * PAGE + k * CHUNK..p * PAGE + k * CHUNK + CHUNK]
  {
    ChunkInside(f, p, k);
  }

  /** A packed place leads to the chunk it was packed from. */
  lemma PlaceReads(files: seq<DumpFile>, c: Copy)
    requires Sized(files) && InDump(files, c)
    ensures var w := Place(c);
            var f := w / 0x1000_0000;
            var off := w / 4 % PAGE_LIMIT * PAGE + w % 4 * CHUNK;
            f == c.file && off + CHUNK <= |files[f].bin|
            && DataOf(files[f].bin[off..off + CHUNK]) == CopyData(files, c)
  {
    assert files[c.file] in files;
    hide Sized, Place, ChunkBytes, DataOf;
    PlaceParts(c);
    ChunkIs(files[c.file], c.page, c.chunk);
  }

  lemma EntryLeads(files: seq<DumpFile>, c: Copy)
    requires Sized(files) && InDump(files, c) && c.stamp < TWO63 && Fits32(Place(c))
    ensures ReadEntry(files, MapEntry(c.stamp, Place(c))) == Ok(Some(CopyData(files, c)))
  {
    EntryReads(c.stamp, Place(c));
    PlaceReads(files, c);
    hide MapEntry, StampIn, LE, Place, Sized, CopyData, ChunkBytes, Pages;
    var w := Place(c);
    var off := w / 4 % PAGE_LIMIT * PAGE + w % 4 * CHUNK;
    var bytes := files[c.file].bin[off..off + CHUNK];
    assert Slice(files[c.file].bin, off, off + CHUNK) == bytes;
    assert Slice(bytes, 0, 1024) == bytes[..1024] && Slice(bytes, 1040, |bytes|) == bytes[1040..];
  }

  lemma NoEntry(files: seq<DumpFile>)
    ensures ReadEntry(files, MapEntry(-1, 0)) == Ok(None)
  {
    EntryReads(-1, 0);
    hide MapEntry, StampIn, LE;
  }

  /** The entry of an LBA reads as its content. */
  lemma StoredReads(files: seq<DumpFile>, lba: nat)
    requires var live := Live(AllCopies(files), lba); Sized(files) && Fits64(StampOf(live)) && Fits32(PlaceOf(live))
    ensures var live := Live(AllCopies(files), lba);
            ReadEntry(files, MapEntry(StampOf(live), PlaceOf(live))) == Ok(Content(files, lba))
  {
    CopiesInside(files, |files|);
    LiveIsHighest(AllCopies(files), lba);
    hide Live, AllCopies, Copies, Sized, ReadEntry, MapEntry, Place, CopyData;
    var live := Live(AllCopies(files), lba);
    if live.Some? {
      EntryLeads(files, live.value);
    } else {
      NoEntry(files);
    }
  }

  lemma PlaceFits(c: Copy)
    requires c.page < PAGE_LIMIT && c.chunk < 4
    ensures Fits32(Place(c)) <==> c.file < 16
  {
  }

  /** Every live copy lies in one of the first sixteen files. */
  ghost predicate LiveInSixteen(files: seq<DumpFile>, nlba: nat) {
    forall l :: 0 <= l < nlba && Live(AllCopies(files), l).Some? ==> Live(AllCopies(files), l).value.file < 16
  }

  lemma LiveFits(files: seq<DumpFile>, lba: nat)
    requires Sized(files)
    ensures var live := Live(AllCopies(files), lba);
            && Fits64(StampOf(live))
            && (Fits32(PlaceOf(live)) <==> live.None? || live.value.file < 16)
  {
    CopiesInside(files, |files|);
    LiveIsHighest(AllCopies(files), lba);
    var live := Live(AllCopies(files), lba);
    hide Live, AllCopies, Copies, Place;
    if live.Some? {
      assert files[live.value.file] in files;
      PlaceFits(live.value);
    }
  }

  /** scan: the map file is written whole exactly if all live copies are in the first sixteen files, and then every
      read through it gives what the dump holds. */
  method ScanToMap(files: seq<DumpFile>, nlba: nat) returns (table: seq<byte>, ok: bool)
    requires Sized(files)
    ensures ok <==> LiveInSixteen(files, nlba)
    ensures ok ==> |table| == 12 * nlba && forall l :: 0 <= l < nlba ==>
              ReadAt(files, table, l) == Ok(Content(files, l))
    ensures ok ==> forall l :: 0 <= l < nlba ==>
              var live := Live(AllCopies(files), l);
              Fits64(StampOf(live)) && table[12 * l..12 * l + 12] == MapEntry(StampOf(live), PlaceOf(live))
  {
    hide Live, AllCopies, Place, ReadEntry, MapEntry, Content, Sized;
    var stamps, places := Scan(files, nlba);
    ghost var all := AllCopies(files);
    forall l | 0 <= l < nlba
      ensures Fits64(stamps[l]) && places[l] >= 0
      ensures stamps[l] == StampOf(Live(all, l)) && places[l] == PlaceOf(Live(all, l))
      ensures Fits32(places[l]) <==> Live(all, l).None? || Live(all, l).value.file < 16
    {
      assert stamps[..][l] == StampOf(Live(all, l)) && places[..][l] == PlaceOf(Live(all, l));
      LiveFits(files, l);
    }
    hide StampOf, PlaceOf, MapHolds;
    table, ok := WriteMap(stamps[..], places[..]);
    if ok {
      forall l | 0 <= l < nlba
        ensures ReadAt(files, table, l) == Ok(Content(files, l))
        ensures var live := Live(AllCopies(files), l);
                Fits64(StampOf(live)) && table[12 * l..12 * l + 12] == MapEntry(StampOf(live), PlaceOf(live))
      {
        MapEntryAt(stamps[..], places[..], nlba, l);
        assert Fits32(places[..][l]);
        StoredReads(files, l);
      }
    }
  }

  // ---- the dump's order does not matter ---------------------------------------------------------

  /** What one copy says. */
  datatype Written = Written(lba: nat, stamp: nat, data: seq<byte>)

  ghost function AllWritten(files: seq<DumpFile>): set<Written> {
    CopiesInside(files, |files|);
    set c | c in AllCopies(files) :: Written(c.lba, c.stamp, CopyData(files, c))
  }

  /** No LBA was written twice with one stamp and different data. */
  ghost predicate StampsDistinct(ws: set<Written>) {
    forall a, b :: a in ws && b in ws && a.lba == b.lba && a.stamp == b.stamp ==> a.data == b.data
  }

  /** No write of the same LBA has a higher stamp. */
  ghost predicate IsLatest(files: seq<DumpFile>, w: Written) {
    forall v :: v in AllWritten(files) && v.lba == w.lba ==> v.stamp <= w.stamp
  }

  /** A read gives the data written with the highest stamp for that LBA, and nothing only if there is none. */
  lemma ContentIsLatest(files: seq<DumpFile>, lba: nat)
    ensures Content(files, lba).None? ==> forall w :: w in AllWritten(files) ==> w.lba != lba
    ensures Content(files, lba).Some? ==> |Content(files, lba).value| == 4096
    ensures Content(files, lba).Some? ==> exists w :: w in AllWritten(files) && w.lba == lba && IsLatest(files, w) &&
                                                      w.data == Content(files, lba).value
  {
    CopiesInside(files, |files|);
    LiveIsHighest(AllCopies(files), lba);
    var live := Live(AllCopies(files), lba);
    hide Live, AllCopies, CopyData;
    if live.Some? {
      var w := Written(live.value.lba, live.value.stamp, CopyData(files, live.value));
      assert w in AllWritten(files);
      assert |w.data| == 4096 by { LengthOf(files, live.value); }
    }
  }

  lemma LengthOf(files: seq<DumpFile>, c: Copy)
    requires InDump(files, c)
    ensures |CopyData(files, c)| == 4096
  {
  }

  /** Two dumps with the same writes in them, in whatever files and pages, read the same everywhere. */
  lemma OrderIrrelevant(a: seq<DumpFile>, b: seq<DumpFile>, lba: nat)
    requires AllWritten(a) == AllWritten(b) && StampsDistinct(AllWritten(a))
    ensures Content(a, lba) == Content(b, lba)
  {
    ContentIsLatest(a, lba);
    ContentIsLatest(b, lba);
    hide Content, AllWritten;
  }
}
