/** overlay_cpio.py: a small archive of files at given places, with the directories above them. */
module CpioOverlay {
  import opened Bytes
  import opened CpioFormat
  import opened CpioRoundTrip
  import opened CpioWriters

  const ROOT: seq<byte> := [0x72, 0x6F, 0x6F, 0x74]
  const DOT_SSH: seq<byte> := [0x2E, 0x73, 0x73, 0x68]

  /** DEST, the contents of SRC and MODE. */
  datatype Spec = Spec(dest: seq<byte>, content: seq<byte>, mode: nat)

  // ---- path text --------------------------------------------------------------------------------

  /** Where the last slash is, -1 if there is none. */
  function LastSlash(s: seq<byte>): (k: int)
    ensures -1 <= k < |s| && (k >= 0 ==> s[k] == SLASH)
    ensures forall i :: k < i < |s| ==> s[i] != SLASH
  {
    if s == [] then -1 else if s[|s| - 1] == SLASH then |s| - 1 else LastSlash(s[..|s| - 1])
  }

  /** s.split("/") */
  function Split(s: seq<byte>): (parts: seq<seq<byte>>)
    ensures parts != []
    decreases |s|
  {
    var k := LastSlash(s);
    if k < 0 then [s] else Split(s[..k]) + [s[k + 1..]]
  }

  /** "/".join(parts) */
  function Join(parts: seq<seq<byte>>): seq<byte> {
    if parts == [] then []
    else if |parts| == 1 then parts[0]
    else Join(parts[..|parts| - 1]) + [SLASH] + parts[|parts| - 1]
  }

  /** The directory a name is in, if it has one. */
  function ParentOf(name: seq<byte>): Option<seq<byte>> {
    var k := LastSlash(name);
    if k < 0 then None else Some(name[..k])
  }

  lemma {:induction false} JoinOfSplit(s: seq<byte>)
    ensures Join(Split(s)) == s
    decreases |s|
  {
    var k := LastSlash(s);
    if k >= 0 {
      JoinOfSplit(s[..k]);
      var front := Split(s[..k]);
      assert Split(s)[..|front|] == front;
      assert s == s[..k] + [SLASH] + s[k + 1..];
    }
  }

  /** Every prefix of the parts is the name of the directory above the next one. */
  lemma {:induction false} PrefixIsParent(s: seq<byte>, i: nat)
    requires 1 <= i <= |Split(s)|
    ensures ParentOf(Join(Split(s)[..i])) == if i == 1 then None else Some(Join(Split(s)[..i - 1]))
    ensures Join(Split(s)[..i]) <= s
    decreases |s|
  {
    var k, parts := LastSlash(s), Split(s);
    JoinOfSplit(s);
    if i == |parts| {
      assert parts[..i] == parts;
      if k >= 0 {
        JoinOfSplit(s[..k]);
        assert parts[..i - 1] == Split(s[..k]);
      }
    } else {
      PrefixIsParent(s[..k], i);
      assert parts[..i] == Split(s[..k])[..i] && parts[..i - 1] == Split(s[..k])[..i - 1];
    }
  }

  function StripRight(s: seq<byte>): (r: seq<byte>)
    ensures r <= s && (r != [] ==> r[|r| - 1] != SLASH)
  {
    if s != [] && s[|s| - 1] == SLASH then StripRight(s[..|s| - 1]) else s
  }

  /** s.strip("/") */
  function Strip(s: seq<byte>): (r: seq<byte>)
    ensures r != [] ==> r[0] != SLASH && r[|r| - 1] != SLASH
  {
    if s != [] && s[0] == SLASH then Strip(s[1..]) else StripRight(s)
  }

  // ---- the entries ------------------------------------------------------------------------------

  /** A directory's last component decides who may look into it. */
  function DirMode(d: seq<byte>): nat {
    var name := d[LastSlash(d) + 1..];
    if name == ROOT || name == DOT_SSH then 0x1C0 else 0x1ED
  }

  function DirEntry(d: seq<byte>): Entry {
    Entry(d, 0, 0x4000 + DirMode(d), 1, 0, [])
  }

  /** 0100000 | mode */
  function RegularMode(mode: nat): nat {
    if mode / 0x8000 % 2 == 1 then mode else mode + 0x8000
  }

  function FileEntry(s: Spec): Entry {
    Entry(Strip(s.dest), 0, RegularMode(s.mode), 1, 0, s.content)
  }

  datatype Planned = Planned(entries: seq<Entry>, dirs: set<seq<byte>>)

  /** Directory d, unless it is there already. */
  function AddDir(p: Planned, d: seq<byte>): Planned {
    if d in p.dirs then p else Planned(p.entries + [DirEntry(d)], p.dirs + {d})
  }

  /** The first n directories on the way to a place. */
  function AddDirs(p: Planned, parts: seq<seq<byte>>, n: nat): Planned
    requires n <= |parts|
  {
    if n == 0 then p else AddDir(AddDirs(p, parts, n - 1), Join(parts[..n]))
  }

  function AddSpec(p: Planned, s: Spec): Planned {
    var parts := Split(Strip(s.dest));
    var q := AddDirs(p, parts, |parts| - 1);
    Planned(q.entries + [FileEntry(s)], q.dirs)
  }

  function Plan(specs: seq<Spec>): Planned {
    if specs == [] then Planned([], {}) else AddSpec(Plan(specs[..|specs| - 1]), specs[|specs| - 1])
  }

  function OverlayArchive(specs: seq<Spec>): seq<byte> {
    Records(Plan(specs).entries) + Record(TrailerEntry(0, 1))
  }

  // ---- the program ------------------------------------------------------------------------------

  /** entry: the paddings here are taken from the record's own lengths. */
  method EntryBytes(name: seq<byte>, mode: nat, data: seq<byte>) returns (out: seq<byte>)
    ensures out == Record(Entry(name, 0, mode, 1, 0, data))
  {
    hide FieldBytes, Zeros, Padding;
    ghost var e := Entry(name, 0, mode, 1, 0, data);
    out := NEWC + FieldBytes([0, mode, 0, 0, 1, 0, |data|, 0, 0, 0, 0, |name| + 1, 0]) + name + [0];
    assert out == NamePart(e);
    out := out + Zeros(|out|, 4);
    out := out + (data + Zeros(|data|, 4));
  }

  method AddParents(blob: seq<byte>, dirs: set<seq<byte>>, parts: seq<seq<byte>>, ghost p: Planned)
    returns (blob': seq<byte>, dirs': set<seq<byte>>)
    requires parts != [] && blob == Records(p.entries) && dirs == p.dirs
    ensures var q := AddDirs(p, parts, |parts| - 1); blob' == Records(q.entries) && dirs' == q.dirs
  {
    hide Join, DirMode, Record, Records;
    blob', dirs' := blob, dirs;
    for i := 0 to |parts| - 1
      invariant var q := AddDirs(p, parts, i); blob' == Records(q.entries) && dirs' == q.dirs
    {
      ghost var q := AddDirs(p, parts, i);
      var d := Join(parts[..i + 1]);
      if d !in dirs' {
        var b := EntryBytes(d, 0x4000 + DirMode(d), []);
        RecordsSnoc(q.entries, DirEntry(d));
        blob', dirs' := blob' + b, dirs' + {d};
      }
    }
  }

  method Overlay(specs: seq<Spec>) returns (blob: seq<byte>)
    ensures blob == OverlayArchive(specs)
  {
    hide AddDirs, Record, Split, Strip, RegularMode;
    var dirs: set<seq<byte>>;
    blob, dirs := [], {};
    for i := 0 to |specs|
      invariant blob == Records(Plan(specs[..i]).entries) && dirs == Plan(specs[..i]).dirs
    {
      var s, parts := specs[i], Split(Strip(specs[i].dest));
      ghost var p := Plan(specs[..i]);
      assert specs[..i + 1][..i] == specs[..i];
      blob, dirs := AddParents(blob, dirs, parts, p);
      var b := EntryBytes(Strip(s.dest), RegularMode(s.mode), s.content);
      RecordsSnoc(AddDirs(p, parts, |parts| - 1).entries, FileEntry(s));
      blob := blob + b;
    }
    assert specs[..|specs|] == specs;
    var last := EntryBytes(TRAILER, 0, []);
    blob := blob + last;
  }

  // ---- every directory once, and before what is in it -------------------------------------------

  predicate IsDir(e: Entry) {
    e.mode / 0x1000 % 16 == 4
  }

  /** Some directory entry among the first n has this name. */
  ghost predicate DirBefore(es: seq<Entry>, n: nat, d: seq<byte>)
    requires n <= |es|
  {
    exists j :: 0 <= j < n && es[j].name == d && IsDir(es[j])
  }

  ghost predicate ParentsFirst(es: seq<Entry>) {
    forall k :: 0 <= k < |es| ==> ParentOf(es[k].name).Some? ==> DirBefore(es, k, ParentOf(es[k].name).value)
  }

  ghost predicate DirsOnce(es: seq<Entry>) {
    forall j, k :: 0 <= j < k < |es| && IsDir(es[j]) && IsDir(es[k]) ==> es[j].name != es[k].name
  }

  /** No name starts at the root. */
  ghost predicate Relative(es: seq<Entry>) {
    forall e :: e in es ==> !([SLASH] <= e.name)
  }

  ghost predicate WellPlanned(p: Planned) {
    && ParentsFirst(p.entries) && DirsOnce(p.entries) && Relative(p.entries)
    && forall d :: d in p.dirs <==> DirBefore(p.entries, |p.entries|, d)
  }

  lemma DirBeforeSnoc(es: seq<Entry>, e: Entry, n: nat, d: seq<byte>)
    requires n <= |es|
    ensures DirBefore(es + [e], n, d) <==> DirBefore(es, n, d)
    ensures DirBefore(es + [e], |es| + 1, d) <==> DirBefore(es, |es|, d) || (e.name == d && IsDir(e))
  {
    var es' := es + [e];
    assert es'[|es|] == e;
    if DirBefore(es, n, d) {
      var j :| 0 <= j < n && es[j].name == d && IsDir(es[j]);
      assert es'[j] == es[j];
    }
    if DirBefore(es, |es|, d) {
      var j :| 0 <= j < |es| && es[j].name == d && IsDir(es[j]);
      assert es'[j] == es[j];
    }
  }

  lemma ParentsFirstSnoc(es: seq<Entry>, e: Entry)
    requires ParentsFirst(es)
    requires ParentOf(e.name).Some? ==> DirBefore(es, |es|, ParentOf(e.name).value)
    ensures ParentsFirst(es + [e])
  {
    hide DirBefore, ParentOf;
    var es' := es + [e];
    forall k | 0 <= k < |es'| && ParentOf(es'[k].name).Some?
      ensures DirBefore(es', k, ParentOf(es'[k].name).value)
    {
      DirBeforeSnoc(es, e, k, ParentOf(es'[k].name).value);
    }
  }

  lemma WellPlannedSnoc(p: Planned, e: Entry, dirs: set<seq<byte>>)
    requires WellPlanned(p) && !([SLASH] <= e.name)
    requires ParentOf(e.name).Some? ==> ParentOf(e.name).value in p.dirs
    requires if IsDir(e) then e.name !in p.dirs && dirs == p.dirs + {e.name} else dirs == p.dirs
    ensures WellPlanned(Planned(p.entries + [e], dirs))
  {
    ParentsFirstSnoc(p.entries, e);
    DirsOnceSnoc(p, e);
    hide ParentsFirst, DirsOnce, DirBefore, IsDir, ParentOf;
    forall d ensures d in dirs <==> DirBefore(p.entries + [e], |p.entries| + 1, d) {
      DirBeforeSnoc(p.entries, e, |p.entries|, d);
    }
  }

  lemma DirsOnceSnoc(p: Planned, e: Entry)
    requires DirsOnce(p.entries) && (IsDir(e) ==> !DirBefore(p.entries, |p.entries|, e.name))
    ensures DirsOnce(p.entries + [e])
  {
    hide IsDir;
  }

  lemma DirEntryIsDir(d: seq<byte>)
    ensures IsDir(DirEntry(d))
  {
    assert 0 <= DirMode(d) < 0x1000 by { hide LastSlash; }
  }

  lemma FileEntryIsNot(s: Spec)
    ensures !IsDir(FileEntry(s))
  {
    hide Strip;
    RegularBit(s.mode);
  }

  lemma RegularBit(mode: nat)
    ensures RegularMode(mode) / 0x1000 % 16 >= 8
    ensures Regular(RegularMode(mode)) <==> mode / 0x1000 % 8 == 0
  {
    var q := mode / 0x1000;
    assert mode / 0x8000 == q / 8;
    assert (mode + 0x8000) / 0x1000 == q + 8;
  }

  /** The directories on the way to dest, the first n of them. */
  lemma {:induction false} AddDirsKeeps(p: Planned, dest: seq<byte>, n: nat)
    requires WellPlanned(p) && !([SLASH] <= dest) && n < |Split(dest)|
    ensures var q := AddDirs(p, Split(dest), n);
            WellPlanned(q) && p.dirs <= q.dirs && forall i :: 1 <= i <= n ==> Join(Split(dest)[..i]) in q.dirs
  {
    hide WellPlanned, Split, Join, ParentOf, IsDir, DirMode;
    if n > 0 {
      AddDirsKeeps(p, dest, n - 1);
      var q, d := AddDirs(p, Split(dest), n - 1), Join(Split(dest)[..n]);
      PrefixIsParent(dest, n);
      if d !in q.dirs {
        DirEntryIsDir(d);
        WellPlannedSnoc(q, DirEntry(d), q.dirs + {d});
      }
    }
  }

  /** With its parents there, the place itself has its directory in the archive. */
  lemma DestHasParent(p: Planned, dest: seq<byte>)
    requires WellPlanned(p) && !([SLASH] <= dest)
    ensures var q := AddDirs(p, Split(dest), |Split(dest)| - 1);
            WellPlanned(q) && (ParentOf(dest).Some? ==> ParentOf(dest).value in q.dirs)
  {
    hide WellPlanned, Split, Join, ParentOf, AddDirs;
    var parts := Split(dest);
    AddDirsKeeps(p, dest, |parts| - 1);
    PrefixIsParent(dest, |parts|);
    JoinOfSplit(dest);
    assert parts[..|parts|] == parts;
  }

  lemma AddSpecKeeps(p: Planned, s: Spec)
    requires WellPlanned(p)
    ensures WellPlanned(AddSpec(p, s))
  {
    hide WellPlanned, Split, ParentOf, IsDir, Strip, AddDirs, RegularMode;
    var dest := Strip(s.dest);
    DestHasParent(p, dest);
    FileEntryIsNot(s);
    var q := AddDirs(p, Split(dest), |Split(dest)| - 1);
    WellPlannedSnoc(q, FileEntry(s), q.dirs);
  }

  /** For every list of specs: a name's directory is in the archive before it, no directory is there
      twice, and nothing is unpacked outside the root. */
  lemma {:induction false} PlanIsWell(specs: seq<Spec>)
    ensures WellPlanned(Plan(specs))
  {
    if specs != [] {
      PlanIsWell(specs[..|specs| - 1]);
      hide WellPlanned;
      AddSpecKeeps(Plan(specs[..|specs| - 1]), specs[|specs| - 1]);
    }
  }

  // ---- read back --------------------------------------------------------------------------------

  /** The regular files among members. */
  function Files(ms: seq<Member>): seq<Member> {
    if ms == [] then []
    else (if ms[0].content.Some? then [ms[0]] else []) + Files(ms[1..])
  }

  lemma {:induction false} FilesConcat(a: seq<Member>, b: seq<Member>)
    ensures Files(a + b) == Files(a) + Files(b)
  {
    hide Files;
    FilesStep(a);
    if a == [] {
      assert [] + b == b;
    } else {
      FilesStep(a + b);
      assert (a + b)[0] == a[0] && (a + b)[1..] == a[1..] + b;
      FilesConcat(a[1..], b);
    }
  }

  lemma FilesStep(ms: seq<Member>)
    ensures Files(ms) == if ms == [] then [] else (if ms[0].content.Some? then [ms[0]] else []) + Files(ms[1..])
  {
  }

  function MembersOf(es: seq<Entry>): (ms: seq<Member>)
    ensures |ms| == |es|
  {
    seq(|es|, i requires 0 <= i < |es| => MemberOf(es[i]))
  }

  /** MODE has no file type bits of its own besides the regular one. */
  predicate PlainMode(mode: nat) {
    mode / 0x1000 % 8 == 0
  }

  /** The files given with a plain MODE. */
  function Wanted(specs: seq<Spec>): seq<Member> {
    if specs == [] then []
    else
      var s := specs[|specs| - 1];
      Wanted(specs[..|specs| - 1]) +
      if PlainMode(s.mode) then [Member(Strip(s.dest), Some(s.content))] else []
  }

  lemma MembersOfSnoc(es: seq<Entry>, e: Entry)
    ensures MembersOf(es + [e]) == MembersOf(es) + [MemberOf(e)]
  {
  }

  lemma {:induction false} DirsAddNoFiles(p: Planned, parts: seq<seq<byte>>, n: nat)
    requires n <= |parts|
    ensures Files(MembersOf(AddDirs(p, parts, n).entries)) == Files(MembersOf(p.entries))
  {
    hide Join, MembersOf, DirMode;
    if n > 0 {
      DirsAddNoFiles(p, parts, n - 1);
      var q, d := AddDirs(p, parts, n - 1), Join(parts[..n]);
      DirEntryIsDir(d);
      var m := MemberOf(DirEntry(d));
      assert m.content.None?;
      MembersOfSnoc(q.entries, DirEntry(d));
      FilesConcat(MembersOf(q.entries), [m]);
      assert Files([m]) == [] + Files([m][1..]);
    }
  }

  lemma OneFile(ms: seq<Member>, m: Member)
    ensures Files(ms + [m]) == Files(ms) + if m.content.Some? then [m] else []
  {
    FilesConcat(ms, [m]);
    assert Files([m]) == (if m.content.Some? then [m] else []) + Files([m][1..]);
  }

  lemma FileMember(s: Spec)
    ensures MemberOf(FileEntry(s)) == Member(Strip(s.dest), if PlainMode(s.mode) then Some(s.content) else None)
  {
    hide Strip, RegularMode, Regular;
    RegularBit(s.mode);
  }

  lemma {:induction false} PlanFiles(specs: seq<Spec>)
    ensures Files(MembersOf(Plan(specs).entries)) == Wanted(specs)
  {
    hide Split, Strip, AddDirs, MembersOf, FileEntry, Files, MemberOf, PlainMode;
    if specs == [] {
      assert Files(MembersOf([])) == [] by { NoFiles(); }
    } else {
      var before, s := specs[..|specs| - 1], specs[|specs| - 1];
      PlanFiles(before);
      var parts := Split(Strip(s.dest));
      var q := AddDirs(Plan(before), parts, |parts| - 1);
      DirsAddNoFiles(Plan(before), parts, |parts| - 1);
      MembersOfSnoc(q.entries, FileEntry(s));
      FileMember(s);
      OneFile(MembersOf(q.entries), MemberOf(FileEntry(s)));
    }
  }

  lemma NoFiles()
    ensures Files(MembersOf([])) == []
  {
  }

  lemma ListedWhenNoTrailer(es: seq<Entry>)
    requires forall e :: e in es ==> e.name != TRAILER
    ensures Listed(es) == MembersOf(es)
  {
    ListedIsAllIff(es);
  }

  lemma OverlayListed(specs: seq<Spec>, tail: seq<byte>)
    requires AllFit(Plan(specs).entries)
    ensures Contents(OverlayArchive(specs) + tail) == Listing(Listed(Plan(specs).entries), Complete)
  {
    var es, last := Plan(specs).entries, TrailerEntry(0, 1);
    assert OverlayArchive(specs) + tail == Records(es) + (Record(last) + tail);
    assert EntryFits(last);
    hide Record, Records, Plan, AllFit, EntryFits, MembersFrom;
    RecordsRead(OverlayArchive(specs) + tail, 0, {}, es, last, tail);
  }

  /** Whatever follows the archive, the reader lists its entries up to a trailer name; with no such name
      the regular files it sees are exactly the ones given, in order. */
  lemma OverlayReadsBack(specs: seq<Spec>, tail: seq<byte>)
    requires AllFit(Plan(specs).entries)
    ensures var got, es := Contents(OverlayArchive(specs) + tail), Plan(specs).entries;
            && got == Listing(Listed(es), Complete)
            && ((forall e :: e in es ==> e.name != TRAILER) ==>
                  got.members == MembersOf(es) && Files(got.members) == Wanted(specs))
  {
    hide *;
    OverlayListed(specs, tail);
    PlanFiles(specs);
    if forall e :: e in Plan(specs).entries ==> e.name != TRAILER {
      ListedWhenNoTrailer(Plan(specs).entries);
    }
  }
}
