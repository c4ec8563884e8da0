/** Where the bytes of a dump are, and which of them make up the disk. */
module NandLayout {
  import opened Bytes
  import opened NandFtl

  // ---- the metadata of a chunk ------------------------------------------------------------------

  /** Four bytes, the lowest first. */
  ghost function Word32(s: seq<byte>, o: nat): nat
    requires o + 4 <= |s|
  {
    s[o] as int + 0x100 * s[o + 1] as int + 0x1_0000 * s[o + 2] as int + 0x100_0000 * s[o + 3] as int
  }

  /** Six. */
  ghost function Word48(s: seq<byte>, o: nat): nat
    requires o + 6 <= |s|
  {
    Word32(s, o) + 0x1_0000_0000 * s[o + 4] as int + 0x100_0000_0000 * s[o + 5] as int
  }

  /** The dump holds this copy: its page is whole and of status 0x40; behind the first 1024 bytes of its chunk stand a
      one, and from two bytes on the stamp and the LBA. */
  ghost predicate Stored(files: seq<DumpFile>, c: Copy) {
    && c.file < |files| && c.chunk < 4
    && var bin, st, o := files[c.file].bin, files[c.file].st, 16448 * c.page + 4112 * c.chunk;
    && 16448 * c.page + 16448 <= |bin| && c.page < |st| && st[c.page] == 0x40
    && bin[o + 1024] == 1 && c.stamp == Word48(bin, o + 1026) && c.lba == Word32(bin, o + 1032)
  }

  /** The 4096 bytes around those. */
  ghost function UserData(files: seq<DumpFile>, c: Copy): seq<byte>
    requires Stored(files, c)
  {
    var bin, o := files[c.file].bin, 16448 * c.page + 4112 * c.chunk;
    bin[o..o + 1024] + bin[o + 1040..o + 4112]
  }

  lemma Word48Reads(s: seq<byte>, o: nat)
    requires o + 6 <= |s|
    ensures LE(s[o..o + 6]) == Word48(s, o)
  {
    var t := s[o..o + 6];
    hide LE;
    LEUnfolds(t);
    LEUnfolds(t[1..]);
    LEUnfolds(t[2..]);
    LEUnfolds(t[3..]);
    LEUnfolds(t[4..]);
    LEUnfolds(t[5..]);
    assert t[1..][1..] == t[2..] && t[2..][1..] == t[3..] && t[3..][1..] == t[4..] && t[4..][1..] == t[5..];
  }

  lemma Word32Reads(s: seq<byte>, o: nat)
    requires o + 4 <= |s|
    ensures LE(s[o..o + 4]) == Word32(s, o)
  {
    U32leInNumbers(s, o);
    hide LE;
  }

  lemma CopyInNumbers(f: DumpFile, fi: nat, p: nat, k: nat)
    requires p < Pages(f) && k < 4
    ensures var o := 16448 * p + 4112 * k;
            && o + 4112 <= |f.bin|
            && CopyOf(f, fi, p, k) == (if f.bin[o + 1024] == 1
                                       then [Copy(Word32(f.bin, o + 1032), Word48(f.bin, o + 1026), fi, p, k)] else [])
  {
    ChunkIs(f, p, k);
    MetaReads(f.bin, 16448 * p + 4112 * k, ChunkBytes(f, p, k));
    hide LE, Word32, Word48, ChunkBytes;
  }

  lemma MetaReads(bin: seq<byte>, o: nat, b: seq<byte>)
    requires o + 4112 <= |bin| && b == bin[o..o + 4112]
    ensures var m := b[1024..1040];
            m[0] == bin[o + 1024] && LE(m[2..8]) == Word48(bin, o + 1026) && LE(m[8..12]) == Word32(bin, o + 1032)
  {
    hide LE, Word32, Word48;
    var m := b[1024..1040];
    SliceOfSlice(bin, o, o + 4112, 1024, 1040);
    SliceOfSlice(bin, o + 1024, o + 1040, 2, 8);
    SliceOfSlice(bin, o + 1024, o + 1040, 8, 12);
    Word48Reads(bin, o + 1026);
    Word32Reads(bin, o + 1032);
  }

  // ---- the copies of a dump ---------------------------------------------------------------------

  /** Found in the first k chunks of page p. */
  lemma {:induction false} PageInNumbers(files: seq<DumpFile>, fi: nat, p: nat, k: nat)
    requires fi < |files| && p < Pages(files[fi]) && k <= 4 && GoodPage(files[fi], p)
    ensures forall c :: c in PageCopies(files[fi], fi, p, k) <==>
                          Stored(files, c) && c.file == fi && c.page == p && c.chunk < k
  {
    hide CopyOf, Word32, Word48;
    if k > 0 {
      PageInNumbers(files, fi, p, k - 1);
      CopyInNumbers(files[fi], fi, p, k - 1);
    }
  }

  lemma StoredPage(files: seq<DumpFile>, c: Copy)
    requires Stored(files, c)
    ensures c.page < Pages(files[c.file]) && GoodPage(files[c.file], c.page)
  {
    hide Word32, Word48;
  }

  lemma {:induction false} FileInNumbers(files: seq<DumpFile>, fi: nat, n: nat)
    requires fi < |files| && n <= Pages(files[fi])
    ensures forall c :: c in FileCopies(files[fi], fi, n) <==> Stored(files, c) && c.file == fi && c.page < n
  {
    hide PageCopies, Stored, GoodPage, Pages;
    if n > 0 {
      FileInNumbers(files, fi, n - 1);
      if GoodPage(files[fi], n - 1) { PageInNumbers(files, fi, n - 1, 4); }
      forall c | Stored(files, c) && c.file == fi && c.page == n - 1 ensures GoodPage(files[fi], n - 1) && c.chunk < 4 {
        StoredPage(files, c);
        ChunkOfFour(files, c);
      }
    }
  }

  lemma ChunkOfFour(files: seq<DumpFile>, c: Copy)
    requires Stored(files, c)
    ensures c.chunk < 4 && c.file < |files|
  {
  }

  lemma {:induction false} FilesInNumbers(files: seq<DumpFile>, m: nat)
    requires m <= |files|
    ensures forall c :: c in Copies(files, m) <==> Stored(files, c) && c.file < m
  {
    hide FileCopies, Stored, Pages;
    if m > 0 {
      FilesInNumbers(files, m - 1);
      FileInNumbers(files, m - 1, Pages(files[m - 1]));
      forall c | Stored(files, c) && c.file == m - 1 ensures c.page < Pages(files[m - 1]) { StoredPage(files, c); }
    }
  }

  /** The copies found are those stored, by the numbers of their bytes. */
  lemma CopiesInNumbers(files: seq<DumpFile>)
    ensures forall c :: c in AllCopies(files) <==> Stored(files, c)
  {
    hide Copies, Stored;
    FilesInNumbers(files, |files|);
    forall c | Stored(files, c) ensures c.file < |files| { ChunkOfFour(files, c); }
  }

  // ---- the order they are found in --------------------------------------------------------------

  /** File by file, page by page, chunk by chunk. */
  ghost predicate Sooner(a: Copy, b: Copy) {
    a.file < b.file || (a.file == b.file && (a.page < b.page || (a.page == b.page && a.chunk < b.chunk)))
  }

  ghost predicate InOrder(cs: seq<Copy>) {
    forall i, j :: 0 <= i < j < |cs| ==> Sooner(cs[i], cs[j])
  }

  lemma InOrderConcat(a: seq<Copy>, b: seq<Copy>)
    requires InOrder(a) && InOrder(b) && forall x, y :: x in a && y in b ==> Sooner(x, y)
    ensures InOrder(a + b)
  {
    hide Sooner;
  }

  lemma {:induction false} PageInOrder(f: DumpFile, fi: nat, p: nat, k: nat)
    requires p < Pages(f) && k <= 4
    ensures InOrder(PageCopies(f, fi, p, k))
    ensures forall c :: c in PageCopies(f, fi, p, k) ==> c.file == fi && c.page == p && c.chunk < k
  {
    hide LE, ChunkBytes;
    if k > 0 {
      PageInOrder(f, fi, p, k - 1);
      InOrderConcat(PageCopies(f, fi, p, k - 1), CopyOf(f, fi, p, k - 1));
    }
  }

  lemma {:induction false} FileInOrder(f: DumpFile, fi: nat, n: nat)
    requires n <= Pages(f)
    ensures InOrder(FileCopies(f, fi, n))
    ensures forall c :: c in FileCopies(f, fi, n) ==> c.file == fi && c.page < n
  {
    hide PageCopies, GoodPage;
    if n > 0 {
      FileInOrder(f, fi, n - 1);
      PageInOrder(f, fi, n - 1, 4);
      InOrderConcat(FileCopies(f, fi, n - 1), if GoodPage(f, n - 1) then PageCopies(f, fi, n - 1, 4) else []);
    }
  }

  lemma {:induction false} CopiesInOrder(files: seq<DumpFile>, m: nat)
    requires m <= |files|
    ensures InOrder(Copies(files, m)) && forall c :: c in Copies(files, m) ==> c.file < m
  {
    hide FileCopies, Pages;
    if m > 0 {
      CopiesInOrder(files, m - 1);
      FileInOrder(files[m - 1], m - 1, Pages(files[m - 1]));
      InOrderConcat(Copies(files, m - 1), FileCopies(files[m - 1], m - 1, Pages(files[m - 1])));
    }
  }

  // ---- the copy that is read --------------------------------------------------------------------

  /** Copy b has a higher stamp than any other of its LBA, or the same and was found sooner. */
  ghost predicate Wins(b: Copy, c: Copy) {
    c.lba == b.lba ==> c.stamp < b.stamp || (c.stamp == b.stamp && (c == b || Sooner(b, c)))
  }

  lemma {:induction false} LiveWins(cs: seq<Copy>, lba: nat)
    requires InOrder(cs) && Live(cs, lba).Some?
    ensures forall c :: c in cs ==> Wins(Live(cs, lba).value, c)
    decreases |cs|
  {
    hide Sooner;
    var before, last := cs[..|cs| - 1], cs[|cs| - 1];
    LiveIsHighest(before, lba);
    if Live(before, lba).Some? {
      LiveWins(before, lba);
      var b := Live(before, lba).value;
      var i :| 0 <= i < |before| && before[i] == b;
      assert Sooner(cs[i], cs[|cs| - 1]);
    }
    assert cs == before + [last];
  }

  /** A read gives the user data of the stored copy that wins, and nothing exactly if none is stored. */
  lemma ContentInNumbers(files: seq<DumpFile>, lba: nat)
    ensures match Content(files, lba)
            case None => forall c :: Stored(files, c) ==> c.lba != lba
            case Some(d) => exists b :: Stored(files, b) && b.lba == lba && d == UserData(files, b) &&
                                        forall c :: Stored(files, c) ==> Wins(b, c)
  {
    CopiesInside(files, |files|);
    LiveIsHighest(AllCopies(files), lba);
    CopiesInNumbers(files);
    CopiesInOrder(files, |files|);
    hide Copies, Live, Stored, InOrder, Wins, CopyData, UserData;
    var live := Live(AllCopies(files), lba);
    if live.Some? {
      LiveWins(AllCopies(files), lba);
      DataInNumbers(files, live.value);
    }
  }

  lemma DataInNumbers(files: seq<DumpFile>, c: Copy)
    requires Stored(files, c) && InDump(files, c)
    ensures CopyData(files, c) == UserData(files, c)
  {
    hide Word32, Word48;
    var bin, o := files[c.file].bin, 16448 * c.page + 4112 * c.chunk;
    ChunkIs(files[c.file], c.page, c.chunk);
    SliceOfSlice(bin, o, o + 4112, 0, 1024);
    SliceOfSlice(bin, o, o + 4112, 1040, 4112);
  }

  // ---- the map file -----------------------------------------------------------------------------

  /** Twelve bytes: the stamp as a signed number of eight, then where the copy is. */
  lemma EntryInNumbers(c: Copy)
    requires c.stamp < 0x8000_0000_0000_0000 && c.page < 0x400_0000 && c.chunk < 4 && c.file < 16
    ensures var b := MapEntry(c.stamp, PlaceOf(Some(c)));
            && b[..8] == ToLE(c.stamp, 8)
            && Word32(b, 8) == c.file * 0x1000_0000 + c.page * 4 + c.chunk
    ensures MapEntry(StampOf(None), PlaceOf(None)) == [255, 255, 255, 255, 255, 255, 255, 255, 0, 0, 0, 0]
  {
    var w := Place(c);
    var b := MapEntry(c.stamp, w);
    assert b[8..12] == ToLE(w, 4);
    assert Pow256(4) == 0x1_0000_0000;
    LERoundTrip(w, 4);
    Word32Reads(b, 8);
    AllOnes();
  }

  lemma AllOnes()
    ensures ToLE(0xffff_ffff_ffff_ffff, 8) == [255, 255, 255, 255, 255, 255, 255, 255]
    ensures ToLE(0, 4) == [0, 0, 0, 0]
  {
    assert ToLE(0xff, 1) == [255];
    assert ToLE(0xffff, 2) == [255, 255];
    assert ToLE(0xff_ffff, 3) == [255, 255, 255];
    assert ToLE(0xffff_ffff, 4) == [255, 255, 255, 255];
    assert ToLE(0xff_ffff_ffff, 5) == [255, 255, 255, 255, 255];
    assert ToLE(0xffff_ffff_ffff, 6) == [255, 255, 255, 255, 255, 255];
    assert ToLE(0xff_ffff_ffff_ffff, 7) == [255, 255, 255, 255, 255, 255, 255];
    assert ToLE(0, 1) == [0] && ToLE(0, 2) == [0, 0] && ToLE(0, 3) == [0, 0, 0];
  }
}
