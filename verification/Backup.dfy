// Byte images of database files.
module Images {
  import Division
  import opened Numbers

  type byte = b: int | 0 <= b < 256

  // The image extended by zeros to at least n bytes.
  function Padded(image: seq<byte>, n: nat): (r: seq<byte>)
    ensures |r| == Max(|image|, n) && forall o :: 0 <= o < |image| ==> r[o] == image[o]
    decreases n - |image|
  {
    if n <= |image| then image else Padded(image + [0], n)
  }

  // The image with data at the given offset, extended to the end.
  function Overlay(image: seq<byte>, at: nat, data: seq<byte>, end: nat): (r: seq<byte>)
    requires at + |data| <= end
    ensures |r| == Max(|image|, end)
    ensures forall o :: at <= o < at + |data| ==> r[o] == data[o - at]
    ensures forall o :: 0 <= o < |image| && !(at <= o < at + |data|) ==> r[o] == image[o]
  {
    if data == [] then Padded(image, end)
    else
      var n := |data| - 1;
      Overlay(image, at, data[..n], end)[at + n := data[n]]
  }

  // What an overlay does to an image.
  ghost predicate Written(before: seq<byte>, image: seq<byte>, at: nat, data: seq<byte>, end: nat) {
    && |image| == Max(|before|, end) && at + |data| <= end
    && (forall o {:trigger image[o]} {:trigger data[o - at]} :: at <= o < at + |data| ==> image[o] == data[o - at])
    && forall o :: 0 <= o < |before| && !(at <= o < at + |data|) ==> image[o] == before[o]
  }

  // The image cut or extended by zeros to n bytes.
  function Resized(image: seq<byte>, n: nat): (r: seq<byte>)
    ensures |r| == n && forall o :: 0 <= o < n && o < |image| ==> r[o] == image[o]
  {
    Padded(image, n)[..n]
  }

  // sqlite3Put4byte
  function Put4(v: nat): (r: seq<byte>)
    ensures |r| == 4
  {
    [Low(v / 0x100_0000), Low(v / 0x1_0000), Low(v / 0x100), Low(v)]
  }

  function Low(v: nat): byte {
    var low: int := v % 256;
    low
  }

  function Get4(image: seq<byte>, at: nat): nat
    requires at + 4 <= |image|
  {
    var a: nat, b: nat, c: nat, d: nat := image[at], image[at + 1], image[at + 2], image[at + 3];
    a * 0x100_0000 + b * 0x1_0000 + c * 0x100 + d
  }

  lemma Digits(v: nat)
    requires v < 0x1_0000_0000
    ensures v / 0x100_0000 % 256 * 0x100_0000 + v / 0x1_0000 % 256 * 0x1_0000 + v / 0x100 % 256 * 0x100 + v % 256 == v
  {
    assert v / 0x100_0000 < 256;
    assert v / 0x1_0000 / 256 == v / 0x100_0000 && v / 0x100 / 256 == v / 0x1_0000;
  }

  lemma PutGet(v: nat, image: seq<byte>, at: nat)
    requires v < 0x1_0000_0000 && at + 4 <= |image| && image[at..at + 4] == Put4(v)
    ensures Get4(image, at) == v
  {
    var b := image[at..at + 4];
    assert image[at] == b[0] && image[at + 1] == b[1] && image[at + 2] == b[2] && image[at + 3] == b[3];
    Digits(v);
  }

  // k pages of n bytes, written so that arithmetic on it stays linear.
  function Times(k: nat, n: nat): nat {
    if k == 0 then 0 else Times(k - 1, n) + n
  }

  lemma {:induction false} TimesIs(k: nat, n: nat)
    ensures Times(k, n) == k * n == n * k
  {
    if k > 0 {
      TimesIs(k - 1, n);
      Division.MulStep(n, k - 1);
    }
  }

  lemma TimesMultiple(k: nat, n: nat)
    requires 0 < n
    ensures Times(k, n) % n == 0 && Times(k, n) / n == k
  {
    TimesIs(k, n);
    Division.Unique(k * n, n, k, 0);
  }

  lemma {:induction false} TimesLe(k: nat, m: nat, n: nat)
    requires k <= m
    ensures Times(k, n) <= Times(m, n)
  {
    if k < m {
      TimesLe(k, m - 1, n);
    }
  }

  // Offsets that are multiples of a page size.
  lemma Gap(a: nat, b: nat, n: nat)
    requires 0 < n && a % n == 0 && b % n == 0 && a < b
    ensures a + n <= b
  {
    Division.DivMod(a, n);
    Division.DivMod(b, n);
    if b / n <= a / n {
      Division.MulLe(n, b / n, a / n);
    }
    Division.MulStep(n, a / n);
    Division.MulLe(n, a / n + 1, b / n);
  }

  lemma SumMultiple(a: nat, b: nat, n: nat)
    requires 0 < n && a % n == 0 && b % n == 0
    ensures (a + b) % n == 0
  {
    Division.DivMod(a, n);
    Division.DivMod(b, n);
    assert a + b == n * (a / n + b / n);
    Division.Unique(a + b, n, a / n + b / n, 0);
  }

  lemma Transitive(a: nat, m: nat, n: nat)
    requires 0 < n && 0 < m && a % m == 0 && m % n == 0
    ensures a % n == 0
  {
    Division.DivMod(a, m);
    Division.DivMod(m, n);
    assert a == n * ((m / n) * (a / m));
    Division.Unique(a, n, (m / n) * (a / m), 0);
  }

  // The page of size n that holds offset a, when p is the start of a page.
  lemma SamePage(a: nat, p: nat, n: nat)
    requires 0 < n && p % n == 0
    ensures a / n == p / n <==> p <= a < p + n
  {
    Division.DivMod(a, n);
    Division.DivMod(p, n);
    if p <= a < p + n {
      Division.Unique(a, n, p / n, a - p);
    }
  }

  lemma Within(a: nat, p: nat, n: nat)
    requires 0 < n && p % n == 0 && p <= a < p + n
    ensures a % n == a - p && a / n == p / n
  {
    Division.DivMod(p, n);
    Division.Unique(a, n, p / n, a - p);
  }

  // A small page inside a large one.
  lemma RestMultiple(a: nat, m: nat, n: nat)
    requires 0 < n && 0 < m && a % n == 0 && m % n == 0
    ensures a % m % n == 0 && a % m + n <= m
  {
    Division.DivMod(a, m);
    Division.DivMod(a, n);
    Division.DivMod(m, n);
    var q := a / n - (m / n) * (a / m);
    assert a % m == n * q;
    Division.Unique(a % m, n, q, 0);
    TimesMultiple(0, n);
    Gap(a % m, m, n);
  }
}

// sqlite3_backup: an online backup, the source it reads and the image it writes.
module Backups {
  import Division
  import opened Images
  import opened Numbers

  datatype Rc = Ok | Busy | Locked | Done | Failed(code: int)

  predicate IsFatal(rc: Rc) {
    rc.Done? || rc.Failed?
  }

  const IOERR := Failed(10)
  const READONLY := Failed(8)

  // The page sizes of source and destination, the pending byte, and the offsets
  // in free pages of the source, which hold no data.
  datatype Geometry = Geometry(src: nat, dest: nat, pending: nat, loose: set<nat>) {
    // One size divides the other, and the pending byte starts a page of both.
    predicate Valid() {
      && 512 <= src && 512 <= dest && (src % dest == 0 || dest % src == 0)
      && pending % src == 0 && pending % dest == 0 && src <= pending && dest <= pending
    }

    // Bytes that only the end of a backup can put in place, or that do not matter.
    predicate Hole(o: int) {
      pending <= o < pending + Max(src, dest) || o in loose
    }

    function Plain(): Geometry {
      this.(loose := {})
    }

    function Chunk(): nat {
      if src < dest then src else dest
    }
  }

  // The page count in the header.
  predicate IsPageCount(o: int) {
    28 <= o < 32
  }

  // The image has at offset o what data, which begins at offset from, has there.
  predicate AtOffset(image: seq<byte>, data: seq<byte>, from: nat, o: int)
    requires from <= o < from + |data|
  {
    o < |image| && image[o] == data[o - from]
  }

  // Source bytes from..to, the first of which is data[0], are in the image.
  ghost predicate Copied(g: Geometry, image: seq<byte>, data: seq<byte>, from: nat, to: nat)
    requires to - from <= |data|
  {
    forall o :: from <= o < to && !g.Hole(o) && !IsPageCount(o) ==> AtOffset(image, data, from, o)
  }

  lemma CopiedAt(g: Geometry, image: seq<byte>, data: seq<byte>, from: nat, to: nat, o: nat)
    requires to - from <= |data| && Copied(g, image, data, from, to) && from <= o < to && !g.Hole(o) && !IsPageCount(o)
    ensures o < |image| && image[o] == data[o - from]
  {
    assert AtOffset(image, data, from, o);
  }

  // The image reaches every offset below n that is not in the hole.
  ghost predicate Reached(g: Geometry, image: seq<byte>, n: nat) {
    forall o {:trigger g.Hole(o)} :: 0 <= o < n && !g.Hole(o) && !IsPageCount(o) ==> o < |image|
  }

  predicate Between(from: nat, o: nat, to: nat) {
    from <= o < to
  }

  // The offsets from..to.
  function Bytes(from: nat, to: nat): set<nat> {
    set o: nat | from <= o < to && Between(from, o, to)
  }

  ghost predicate Kept(before: seq<byte>, image: seq<byte>, from: nat, to: nat) {
    |before| <= |image| && forall o :: 0 <= o < |before| && !(from <= o < to) ==> image[o] == before[o]
  }

  // Where the part of a source page at offset iOff lies.
  lemma ChunkFits(g: Geometry, start: nat, iOff: nat)
    requires g.Valid() && start % g.src == 0 && start <= iOff < start + g.src
    requires if g.dest <= g.src then iOff % g.dest == 0 else iOff == start
    ensures iOff % g.src == iOff - start && iOff - start + g.Chunk() <= g.src
    ensures iOff % g.dest + g.Chunk() <= g.dest && (iOff / g.dest) * g.dest + iOff % g.dest == iOff
    ensures g.dest <= g.src ==> (iOff + g.dest) % g.dest == 0 && iOff + g.dest <= start + g.src
    ensures iOff / g.dest == g.pending / g.dest <==> g.pending <= iOff < g.pending + g.dest
    ensures g.pending <= iOff < g.pending + g.dest ==>
      forall o :: iOff <= o < iOff + g.Chunk() ==> g.Hole(o)
  {
    Within(iOff, start, g.src);
    Division.DivMod(iOff, g.dest);
    SamePage(iOff, g.pending, g.dest);
    DividesDown(g);
    if g.dest <= g.src {
      DownFits(g, start, iOff);
    } else {
      UpFits(g, iOff);
    }
  }

  lemma DownFits(g: Geometry, start: nat, iOff: nat)
    requires g.Valid() && g.dest <= g.src && g.src % g.dest == 0
    requires start % g.src == 0 && start <= iOff < start + g.src && iOff % g.dest == 0
    ensures (iOff + g.dest) % g.dest == 0 && iOff + g.dest <= start + g.src
  {
    Transitive(start, g.src, g.dest);
    SumMultiple(start, g.src, g.dest);
    Gap(iOff, start + g.src, g.dest);
    TimesMultiple(1, g.dest);
    SumMultiple(iOff, g.dest, g.dest);
  }

  lemma UpFits(g: Geometry, iOff: nat)
    requires g.Valid() && g.src < g.dest && g.dest % g.src == 0 && iOff % g.src == 0
    ensures iOff % g.dest + g.src <= g.dest
    ensures g.pending <= iOff < g.pending + g.dest ==> iOff + g.src <= g.pending + g.dest
  {
    RestMultiple(iOff, g.dest, g.src);
    if g.pending <= iOff < g.pending + g.dest {
      Within(iOff, g.pending, g.dest);
    }
  }

  lemma DividesDown(g: Geometry)
    requires g.Valid()
    ensures if g.dest <= g.src then g.src % g.dest == 0 else g.dest % g.src == 0
  {
    if g.dest < g.src && g.dest % g.src == 0 {
      Division.Unique(g.dest, g.src, 0, g.dest);
    }
    if g.src < g.dest && g.src % g.dest == 0 {
      Division.Unique(g.src, g.dest, 0, g.src);
    }
  }

  lemma CopiedMore(g: Geometry, before: seq<byte>, image: seq<byte>, data: seq<byte>, from: nat, mid: nat, to: nat)
    requires from <= mid <= to && to - from <= |data|
    requires Copied(g, before, data, from, mid) && Kept(before, image, mid, to)
    requires forall o :: mid <= o < to && !g.Hole(o) && !IsPageCount(o) ==> o < |image| && image[o] == data[o - from]
    ensures Copied(g, image, data, from, to)
  {
    forall o | from <= o < to && !g.Hole(o) && !IsPageCount(o) ensures AtOffset(image, data, from, o) {
      if o < mid {
        CopiedAt(g, before, data, from, mid, o);
      }
    }
  }

  predicate HasCount(image: seq<byte>, count: seq<byte>) {
    |image| >= 32 && image[28..32] == count
  }

  // What the pager writes into page 1 when it commits: its change counter plus
  // one and the version of the library, or nothing.
  datatype CommitStamp = Nothing | CommitStamp(dbFileVers: nat, version: nat)

  // What the layers below do during a call: the outcomes of locking source and
  // destination, whether the destination's page size is fixed, which page gets
  // or writes fail, what the cache of the source holds for free pages, what a new
  // database begins with, whether the commit succeeds and what it stamps.
  datatype Env = Env(srcLock: Rc, lock: Rc, sizeFixed: bool, srcFaults: set<nat>, destFaults: set<nat>,
                     cached: map<nat, seq<byte>>, blank: seq<byte>, commits: bool, stamp: CommitStamp)

  // No page get, page write or commit fails.
  predicate Faultless(env: Env) {
    env.srcFaults == {} && env.destFaults == {} && env.commits
  }

  // Which optional header fields a finished backup changes: the file format of
  // a destination in WAL mode and the change counters of a commit.
  datatype Fields = Fields(wal: bool, counted: bool)

  // The header fields of a finished backup.
  datatype Header = Header(count: seq<byte>, cookie: nat, wal: bool, stamp: CommitStamp)

  ghost predicate HasHeader(image: seq<byte>, h: Header) {
    && |image| >= 512 && image[28..32] == h.count && image[40..44] == Put4(h.cookie)
    && (h.wal ==> image[18..20] == [2, 2])
    && (h.stamp.CommitStamp? ==> HasCounter(image, (h.stamp.dbFileVers + 1) % U32, h.stamp.version))
  }

  ghost predicate HasCounter(image: seq<byte>, counter: nat, version: nat)
    requires |image| >= 512
  {
    image[24..28] == Put4(counter) && image[92..96] == Put4(counter) && image[96..100] == Put4(version)
  }

  lemma HeaderStays(a: seq<byte>, b: seq<byte>, h: Header)
    requires HasHeader(a, h) && |b| >= 512 && forall o :: 0 <= o < 512 ==> b[o] == a[o]
    ensures HasHeader(b, h)
  {
    assert b[..512] == a[..512];
    SameSlice(b, a, 18, 20);
    SameSlice(b, a, 24, 28);
    SameSlice(b, a, 28, 32);
    SameSlice(b, a, 40, 44);
    SameSlice(b, a, 92, 96);
    SameSlice(b, a, 96, 100);
  }

  // The source of a backup: its file, whether a write transaction is open, and
  // the offsets in free pages, in pages freed by the transaction and in pages
  // that it has taken from the free list.
  datatype Source = Source(file: seq<byte>, nSrcPage: nat, inWrite: bool, loose: set<nat>, freed: set<nat>,
                           reused: set<nat>)
  {
    // Page i of n bytes is written.  Pages that the file grows past are free.
    function Write(i: nat, data: seq<byte>, n: nat): Source
      requires i >= 1 && |data| == n
    {
      var start := Times(i - 1, n);
      this.(file := Overlay(file, start, data, start + n), nSrcPage := Max(nSrcPage, i),
            loose := loose + Bytes(|file|, start) - Bytes(start, start + n), freed := freed - Bytes(start, start + n))
    }

    function Free(i: nat, n: nat): Source
      requires i >= 1
    {
      this.(freed := freed + Bytes(Times(i - 1, n), Times(i, n)))
    }

    function Reuse(i: nat, n: nat): Source
      requires i >= 1
    {
      this.(reused := reused + Bytes(Times(i - 1, n), Times(i, n)))
    }

    function Extend(m: nat, n: nat): Source {
      this.(file := Padded(file, Times(m, n)), nSrcPage := m, loose := loose + Bytes(|file|, Times(m, n)))
    }

    function Shrink(m: nat, n: nat): Source {
      this.(file := Resized(file, Times(m, n)), nSrcPage := m, loose := loose * Bytes(0, Times(m, n)))
    }

    // A commit leaves the freed pages free; a rollback restores them, but not
    // what was on the free list before.
    function End(commit: bool): Source {
      this.(inWrite := false, loose := loose + if commit then freed else reused, freed := {}, reused := {})
    }
  }

  // The pager never writes the pending byte page.
  predicate MayWrite(i: nat, n: nat, pending: nat)
    requires n > 0
  {
    i >= 1 && i != pending / n + 1
  }

  class Backup {
    // The source: its file, the pages changed by an open write transaction.
    const pgszSrc: nat
    const pending: nat
    var file: seq<byte>
    var nSrcPage: nat
    var dirty: map<nat, seq<byte>>
    var inWrite: bool
    // The offsets in free pages, for which cache and file may differ; those in
    // pages freed by the open transaction; and those in pages that it has taken
    // from the free list, which a rollback does not restore.
    var loose: set<nat>
    var freed: set<nat>
    var reused: set<nat>
    // The destination image.
    var pgszDest: nat
    const isWal: bool
    const isMemdb: bool
    var dest: seq<byte>
    var cookie: nat
    // The destination as it was when it was locked, or is if it is not.
    var saved: seq<byte>
    // The backup object.
    var iNext: nat
    var rc: Rc
    var nRemaining: int
    var nPagecount: int
    var isAttached: bool
    var bDestLocked: bool
    var iDestSchema: nat
    // What the last commit of the destination stamped, and the page count of the
    // last page 1 that was put in place.
    var stamp: CommitStamp
    ghost var headCount: seq<byte>

    // sqlite3_backup_init
    constructor (pgszSrc: nat, pending: nat, file: seq<byte>, nSrcPage: nat,
                 pgszDest: nat, isWal: bool, isMemdb: bool, dest: seq<byte>, cookie: nat)
      requires Geometry(pgszSrc, pgszDest, pending, {}).Valid() && |file| == Times(nSrcPage, pgszSrc) && cookie < U32
      ensures Valid() && rc == Ok && iNext == 1 && this.dest == dest == saved
      ensures this.cookie == cookie && !bDestLocked && !isAttached && this.pgszSrc == pgszSrc && this.pending == pending
      ensures Src() == Source(file, nSrcPage, false, {}, {}, {})
    {
      this.pgszSrc, this.pending, this.file, this.nSrcPage := pgszSrc, pending, file, nSrcPage;
      dirty, inWrite, loose, freed, reused := map[], false, {}, {}, {};
      this.pgszDest, this.isWal, this.isMemdb, this.dest, this.cookie := pgszDest, isWal, isMemdb, dest, cookie;
      saved, iNext, rc, nRemaining, nPagecount := dest, 1, Ok, 0, 0;
      isAttached, bDestLocked, iDestSchema, stamp, headCount := false, false, 0, Nothing, [];
    }

    // The source as its own operations see it.
    function Src(): Source
      reads this`file, this`nSrcPage, this`inWrite, this`loose, this`freed, this`reused
    {
      Source(file, nSrcPage, inWrite, loose, freed, reused)
    }

    function Changed(): Fields
      reads this`stamp
    {
      Fields(isWal, stamp.CommitStamp?)
    }

    function Geo(): Geometry
      reads this`pgszDest
    {
      Geometry(pgszSrc, pgszDest, pending, {})
    }

    // The same with the free pages of the source.
    function Live(): Geometry
      reads this`pgszDest, this`loose
    {
      Geometry(pgszSrc, pgszDest, pending, loose)
    }

    // The page count that a copy of page 1 leaves in the destination.
    function PageCount(zSrcData: seq<byte>, bUpdate: bool): seq<byte>
      requires |zSrcData| >= 32
      reads this`nSrcPage
    {
      if bUpdate then zSrcData[28..32] else Put4(nSrcPage)
    }

    // Copies what fits of a source page into destination page iDest.
    method CopyChunk(start: nat, iOff: nat, zSrcData: seq<byte>, bUpdate: bool)
      requires Geo().Valid() && start % pgszSrc == 0 && start <= iOff < start + pgszSrc == start + |zSrcData|
      requires if pgszDest <= pgszSrc then iOff % pgszDest == 0 else iOff == start
      modifies this`dest
      ensures Kept(old(dest), dest, iOff, iOff + Geo().Chunk())
      ensures iOff - start + Geo().Chunk() <= |zSrcData|
      ensures forall o :: iOff <= o < iOff + Geo().Chunk() && (bUpdate || !IsPageCount(o)) ==>
        o < |dest| && dest[o] == zSrcData[o - start]
      ensures iOff == 0 ==> HasCount(dest, PageCount(zSrcData, bUpdate))
    {
      ChunkFits(Geo(), start, iOff);
      var nCopy := if pgszSrc < pgszDest then pgszSrc else pgszDest;
      var page := iOff / pgszDest * pgszDest;
      var at := page + iOff % pgszDest;
      var skip := iOff % pgszSrc;
      PutBytes(at, zSrcData[skip..skip + nCopy], page + pgszDest, iOff == 0 && !bUpdate);
      if iOff == 0 && bUpdate {
        SameSlice(dest, zSrcData, 28, 32);
      }
    }

    // The bytes go to the page that ends at offset end, which is created if
    // there is none; then the page count may be set.
    method PutBytes(at: nat, zIn: seq<byte>, end: nat, count: bool)
      requires at + |zIn| <= end && |zIn| >= 32 && (count ==> at == 0)
      modifies this`dest
      ensures Kept(old(dest), dest, at, at + |zIn|) && at + |zIn| <= |dest|
      ensures forall o :: at <= o < at + |zIn| && (!count || !IsPageCount(o)) ==> dest[o] == zIn[o - at]
      ensures count ==> dest[28..32] == Put4(nSrcPage)
    {
      dest := Overlay(dest, at, zIn, end);
      if count {
        dest := Overlay(dest, at + 28, Put4(nSrcPage), |dest|);
      }
    }

    // One round of the loop of backupOnePage.
    method CopyPart(start: nat, iOff: nat, zSrcData: seq<byte>, bUpdate: bool, env: Env) returns (result: Rc)
      requires Geo().Valid() && start % pgszSrc == 0 && start <= iOff < start + pgszSrc == start + |zSrcData|
      requires if pgszDest <= pgszSrc then iOff % pgszDest == 0 else iOff == start
      requires Copied(Geo(), dest, zSrcData, start, iOff)
      modifies this`dest
      ensures result == Ok || result == IOERR
      ensures Kept(old(dest), dest, start, start + pgszSrc)
      ensures result == Ok && iOff == 0 ==> HasCount(dest, PageCount(zSrcData, bUpdate))
      ensures iOff >= 512 && HasCount(old(dest), PageCount(zSrcData, bUpdate)) ==>
        HasCount(dest, PageCount(zSrcData, bUpdate))
      ensures var next := iOff + Geo().Chunk();
        && next <= start + pgszSrc
        && (result == Ok ==> Copied(Geo(), dest, zSrcData, start, next))
      ensures env.destFaults == {} ==> result == Ok
    {
      var iDest := iOff / pgszDest + 1;
      ChunkFits(Geo(), start, iOff);
      if iDest == pending / pgszDest + 1 {
        CopiedMore(Geo(), dest, dest, zSrcData, start, iOff, iOff + Geo().Chunk());
        return Ok;
      }
      if iDest in env.destFaults {
        return IOERR;
      }
      CopyNext(start, iOff, zSrcData, bUpdate);
      result := Ok;
    }

    method CopyNext(start: nat, iOff: nat, zSrcData: seq<byte>, bUpdate: bool)
      requires Geo().Valid() && start % pgszSrc == 0 && start <= iOff < start + pgszSrc == start + |zSrcData|
      requires if pgszDest <= pgszSrc then iOff % pgszDest == 0 else iOff == start
      requires Copied(Geo(), dest, zSrcData, start, iOff)
      modifies this`dest
      ensures Kept(old(dest), dest, start, start + pgszSrc)
      ensures iOff + Geo().Chunk() <= start + pgszSrc
      ensures Copied(Geo(), dest, zSrcData, start, iOff + Geo().Chunk())
      ensures iOff == 0 ==> HasCount(dest, PageCount(zSrcData, bUpdate))
      ensures iOff >= 512 && HasCount(old(dest), PageCount(zSrcData, bUpdate)) ==>
        HasCount(dest, PageCount(zSrcData, bUpdate))
    {
      ghost var before := dest;
      CopyChunk(start, iOff, zSrcData, bUpdate);
      var next := iOff + Geo().Chunk();
      CopiedMore(Geo(), before, dest, zSrcData, start, iOff, next);
      KeptWider(before, dest, iOff, next, start, start + pgszSrc);
      if iOff >= 512 && HasCount(before, PageCount(zSrcData, bUpdate)) {
        KeptSlice(before, dest, iOff, next, 28, 32);
      }
    }

    // backupOnePage
    method BackupOnePage(iSrcPg: nat, zSrcData: seq<byte>, bUpdate: bool, env: Env) returns (result: Rc)
      requires Geo().Valid() && |zSrcData| == pgszSrc && iSrcPg >= 1 && bDestLocked && !IsFatal(rc)
      modifies this`dest
      ensures result == Ok || result == IOERR
      ensures Kept(old(dest), dest, Times(iSrcPg - 1, pgszSrc), Times(iSrcPg, pgszSrc))
      ensures Times(iSrcPg - 1, pgszSrc) + pgszSrc == Times(iSrcPg, pgszSrc)
      ensures result == Ok ==> Copied(Geo(), dest, zSrcData, Times(iSrcPg - 1, pgszSrc), Times(iSrcPg, pgszSrc))
      ensures result == Ok && iSrcPg == 1 ==> HasCount(dest, PageCount(zSrcData, bUpdate))
      ensures env.destFaults == {} ==> result == Ok
    {
      result := Ok;
      var iEnd := iSrcPg * pgszSrc;
      TimesIs(iSrcPg, pgszSrc);
      TimesMultiple(iSrcPg - 1, pgszSrc);
      var start := iEnd - pgszSrc;
      var iOff := start;
      DividesDown(Geo());
      if pgszDest <= pgszSrc {
        Transitive(start, pgszSrc, pgszDest);
      }
      while result == Ok && iOff < iEnd
        invariant start <= iOff && (result == Ok || result == IOERR)
        invariant iOff < iEnd ==> if pgszDest <= pgszSrc then iOff % pgszDest == 0 else iOff == start
        invariant Kept(old(dest), dest, start, iEnd) && (env.destFaults == {} ==> result == Ok)
        invariant result == Ok ==> Copied(Geo(), dest, zSrcData, start, if iOff < iEnd then iOff else iEnd)
        invariant result == Ok && start == 0 < iOff ==> iOff >= 512 && HasCount(dest, PageCount(zSrcData, bUpdate))
        decreases iEnd - iOff
      {
        ghost var before := dest;
        ChunkFits(Geo(), start, iOff);
        result := CopyPart(start, iOff, zSrcData, bUpdate, env);
        KeptTwice(old(dest), before, dest, start, iEnd);
        iOff := iOff + pgszDest;
      }
    }

    // The backup has the source up to offset n.
    ghost predicate Matches(n: nat)
      reads this`dest, this`file, this`pgszDest, this`loose
    {
      Copied(Live(), dest, file, 0, Min(n, |file|)) && Reached(Geo(), dest, n)
    }

    // Everything below iNext is in place, the page count of page 1 included.
    ghost predicate InPlace()
      requires iNext >= 1
      reads this`dest, this`file, this`pgszDest, this`loose, this`iNext, this`headCount
    {
      Matches(Times(iNext - 1, pgszSrc)) && (iNext > 1 ==> HasCount(dest, headCount))
    }

    predicate Sound()
      reads this
    {
      && Geo().Valid() && |file| == Times(nSrcPage, pgszSrc) && iNext >= 1 && iDestSchema < U32 && cookie < U32
      && (forall i :: i in dirty ==> i >= 1 && |dirty[i]| == pgszSrc)
      && (!inWrite ==> dirty == map[] && freed == {} && reused == {})
      && (isAttached ==> bDestLocked) && (bDestLocked ==> iDestSchema == cookie)
    }

    // While no error has ended the backup, everything below iNext is in place,
    // and a backup that is not attached to the source has not begun.  Nothing is
    // written before the destination is locked.
    ghost predicate Valid()
      reads this
    {
      && Sound() && (!bDestLocked ==> dest == saved && rc != Done)
      && (!IsFatal(rc) ==> (!isAttached ==> iNext == 1) && InPlace())
    }

    // sqlite3PagerGet on the source sees uncommitted changes, and may see what
    // the cache holds for a free page.
    function SourcePage(i: nat, env: Env): (page: seq<byte>)
      requires Geo().Valid() && 1 <= i <= nSrcPage && |file| == Times(nSrcPage, pgszSrc)
      requires forall i :: i in dirty ==> |dirty[i]| == pgszSrc
      reads this
      ensures |page| == pgszSrc
      ensures var start := Times(i - 1, pgszSrc);
        i in dirty || Bytes(start, start + pgszSrc) <= loose ||
        (start + pgszSrc <= |file| && page == file[start..start + pgszSrc])
    {
      TimesLe(i, nSrcPage, pgszSrc);
      var start := Times(i - 1, pgszSrc);
      if i in dirty then dirty[i]
      else if i in env.cached && |env.cached[i]| == pgszSrc && Bytes(start, start + pgszSrc) <= loose then env.cached[i]
      else file[start..start + pgszSrc]
    }

    // One round of the copying loop of sqlite3_backup_step.
    method CopyPage(env: Env) returns (result: Rc)
      requires Sound() && !IsFatal(rc) && bDestLocked && !inWrite && iNext <= nSrcPage && InPlace()
      modifies this`dest, this`iNext, this`headCount
      ensures (result == Ok || result == IOERR) && iNext == old(iNext) + 1
      ensures result == Ok ==> InPlace() && headCount == if old(iNext) == 1 then Put4(nSrcPage) else old(headCount)
      ensures Faultless(env) ==> result == Ok
    {
      var iSrcPg := iNext;
      var start := Times(iSrcPg - 1, pgszSrc);
      TimesLe(iSrcPg, nSrcPage, pgszSrc);
      TimesIs(iSrcPg - 1, pgszSrc);
      result := Ok;
      if iSrcPg != pending / pgszSrc + 1 {
        if iSrcPg in env.srcFaults {
          result := IOERR;
        } else {
          result := CopySourcePage(iSrcPg, env);
        }
      } else {
        PendingPage(Geo(), iSrcPg);
        HoleMatches(Live(), dest, file, start, start + pgszSrc);
      }
      iNext := iNext + 1;
    }

    method CopySourcePage(iSrcPg: nat, env: Env) returns (result: Rc)
      requires Sound() && !IsFatal(rc) && bDestLocked && !inWrite && iSrcPg == iNext <= nSrcPage && InPlace()
      modifies this`dest, this`headCount
      ensures result == Ok || result == IOERR
      ensures result == Ok ==> Matches(Times(iSrcPg, pgszSrc)) && HasCount(dest, headCount)
      ensures result == Ok ==> headCount == if iSrcPg == 1 then Put4(nSrcPage) else old(headCount)
      ensures Faultless(env) ==> result == Ok
    {
      var start := Times(iSrcPg - 1, pgszSrc);
      TimesLe(iSrcPg, nSrcPage, pgszSrc);
      ghost var before := dest;
      var data := SourcePage(iSrcPg, env);
      result := BackupOnePage(iSrcPg, data, false, env);
      if result == Ok {
        MatchesMore(Live(), before, dest, file, data, start, start + pgszSrc);
        if iSrcPg == 1 {
          headCount := Put4(nSrcPage);
        } else {
          CountStays(before, dest, iSrcPg, pgszSrc, headCount);
        }
      }
    }

    method CopyPages(nPage: int, env: Env) returns (result: Rc)
      requires Sound() && !IsFatal(rc) && bDestLocked && !inWrite && InPlace()
      modifies this`dest, this`iNext, this`headCount
      ensures (result == Ok || result == IOERR) && old(iNext) <= iNext
      ensures result == Ok ==> headCount == if old(iNext) == 1 < iNext then Put4(nSrcPage) else old(headCount)
      ensures result == Ok ==> InPlace()
      ensures result == Ok ==> iNext > nSrcPage || (0 <= nPage && iNext == old(iNext) + nPage)
      ensures Faultless(env) ==> result == Ok
    {
      result := Ok;
      var ii := 0;
      while (nPage < 0 || ii < nPage) && iNext <= nSrcPage && result == Ok
        invariant (result == Ok || result == IOERR) && iNext == old(iNext) + ii && ii >= 0
        invariant 0 <= nPage ==> ii <= nPage
        invariant result == Ok ==> headCount == if old(iNext) == 1 < iNext then Put4(nSrcPage) else old(headCount)
        invariant (result == Ok ==> InPlace()) && (Faultless(env) ==> result == Ok)
        decreases nSrcPage + 1 - iNext
      {
        result := CopyPage(env);
        ii := ii + 1;
      }
    }

    // Sets the schema cookie, after creating an empty database when there is no
    // source page, and the version fields of a destination in WAL mode.
    method StampHeader(blank: seq<byte>)
      requires Sound() && InPlace() && iNext > nSrcPage && |blank| == pgszDest
      modifies this`dest, this`headCount
      ensures Stamped(Live(), dest, file, Changed()) && |dest| >= pgszDest && Reached(Geo(), dest, |file|)
      ensures headCount == if nSrcPage == 0 then blank[28..32] else old(headCount)
      ensures HasHeader(dest, Header(headCount, (iDestSchema + 1) % U32, isWal, Nothing))
    {
      TimesLe(nSrcPage, iNext - 1, pgszSrc);
      if nSrcPage == 0 {
        dest := Overlay(dest, 0, blank, pgszDest);
        headCount := blank[28..32];
        SameSlice(dest, blank, 28, 32);
      }
      StampedByCopy(Live(), dest, file, Changed());
      StampCookie();
    }

    method StampCookie()
      requires Geo().Valid() && Stamped(Live(), dest, file, Changed()) && HasCount(dest, headCount)
      modifies this`dest
      ensures Stamped(Live(), dest, file, Changed()) && |dest| == Max(|old(dest)|, pgszDest)
      ensures HasHeader(dest, Header(headCount, (iDestSchema + 1) % U32, isWal, Nothing))
    {
      ghost var before := dest;
      PutStamp(40, Put4((iDestSchema + 1) % U32));
      KeptSlice(before, dest, 40, 44, 28, 32);
      if isWal {
        before := dest;
        PutStamp(18, [2, 2]);
        KeptSlice(before, dest, 18, 20, 40, 44);
        KeptSlice(before, dest, 18, 20, 28, 32);
      }
    }

    // What pager_write_changecounter does to page 1 on the way to the file.
    method WriteChangeCounter(ghost h: Header)
      requires Geo().Valid() && stamp.CommitStamp? && Stamped(Live(), dest, file, Changed())
      requires HasHeader(dest, h) && h.stamp == Nothing
      modifies this`dest
      ensures Stamped(Live(), dest, file, Changed()) && |dest| == Max(|old(dest)|, pgszDest)
      ensures HasHeader(dest, h.(stamp := stamp))
      ensures forall o :: 0 <= o < |old(dest)| && !(24 <= o < 28 || 92 <= o < 100) ==> dest[o] == old(dest)[o]
    {
      var counter := (stamp.dbFileVers + 1) % U32;
      ghost var a := dest;
      PutStamp(24, Put4(counter));
      ghost var b := dest;
      PutStamp(92, Put4(counter));
      ghost var c := dest;
      PutStamp(96, Put4(stamp.version));
      CounterSet(a, b, c, dest, h, stamp);
    }

    method PutStamp(at: nat, data: seq<byte>)
      requires Geo().Valid() && at + |data| <= 512 && Stamped(Live(), dest, file, Changed())
      requires forall o :: at <= o < at + |data| ==> IsStamp(o, Changed())
      modifies this`dest
      ensures Stamped(Live(), dest, file, Changed()) && |dest| == Max(|old(dest)|, pgszDest)
      ensures Kept(old(dest), dest, at, at + |data|)
      ensures dest[at..at + |data|] == data
    {
      ghost var before := dest;
      dest := Overlay(dest, at, data, pgszDest);
      StampedStill(Live(), before, dest, file, Changed(), at, at + |data|);
    }

    // The source page at offset iOff.
    lemma PageAt(iOff: nat, iSrcPg: nat)
      requires Sound() && iOff % pgszSrc == 0 && iOff + pgszSrc <= |file| && iSrcPg == iOff / pgszSrc + 1
      ensures 1 <= iSrcPg <= nSrcPage && Times(iSrcPg - 1, pgszSrc) == iOff
    {
      Division.DivMod(iOff, pgszSrc);
      TimesIs(iSrcPg - 1, pgszSrc);
      if nSrcPage < iSrcPg {
        TimesLe(nSrcPage, iSrcPg - 1, pgszSrc);
      }
    }

    // One raw write, past the page cache, of the source page at iOff.
    method WriteBehind(iOff: nat, env: Env) returns (result: Rc)
      requires Sound() && !inWrite && pending + pgszSrc <= iOff && iOff + pgszSrc <= |file|
      requires iOff + pgszSrc <= pending + pgszDest
      requires iOff % pgszSrc == 0
      requires Behind(Live(), dest, file, iOff)
      modifies this`dest
      ensures result == Ok || result == IOERR
      ensures Kept(old(dest), dest, pending + pgszSrc, pending + pgszDest)
      ensures result == Ok ==> Behind(Live(), dest, file, iOff + pgszSrc)
      ensures Faultless(env) ==> result == Ok
    {
      var iSrcPg := iOff / pgszSrc + 1;
      if iSrcPg in env.srcFaults {
        return IOERR;
      }
      PageAt(iOff, iSrcPg);
      var zData := SourcePage(iSrcPg, env);
      WriteRaw(iOff, zData);
      result := Ok;
    }

    method WriteRaw(iOff: nat, zData: seq<byte>)
      requires Sound() && pending + pgszSrc <= iOff && iOff + pgszSrc <= |file| && iOff + pgszSrc <= pending + pgszDest
      requires |zData| == pgszSrc && Behind(Live(), dest, file, iOff)
      requires zData == file[iOff..iOff + pgszSrc] || Bytes(iOff, iOff + pgszSrc) <= loose
      modifies this`dest
      ensures Kept(old(dest), dest, pending + pgszSrc, pending + pgszDest)
      ensures Behind(Live(), dest, file, iOff + pgszSrc)
    {
      ghost var before := dest;
      dest := Overlay(dest, iOff, zData, iOff + pgszSrc);
      BehindMore(Live(), before, dest, file, iOff, zData);
      KeptWider(before, dest, iOff, iOff + pgszSrc, pending + pgszSrc, pending + pgszDest);
    }

    // The source pages that follow the pending byte page inside the pending
    // byte page of the destination.
    method CopyBehindPending(iSize: nat, env: Env) returns (result: Rc)
      requires Sound() && !inWrite && pgszSrc < pgszDest && (iSize == |file| || (|file| == 0 && iSize == pgszSrc))
      modifies this`dest
      ensures result == Ok || result == IOERR
      ensures Kept(old(dest), dest, pending + pgszSrc, pending + pgszDest)
      ensures result == Ok ==> Behind(Live(), dest, file, pending + pgszDest)
      ensures Faultless(env) ==> result == Ok
    {
      result := Ok;
      EndMultiple(Geo(), nSrcPage);
      var iEnd := if pending + pgszDest < iSize then pending + pgszDest else iSize;
      var iOff := pending + pgszSrc;
      while result == Ok && iOff < iEnd
        invariant pending + pgszSrc <= iOff && iOff % pgszSrc == 0 && (result == Ok || result == IOERR)
        invariant Kept(old(dest), dest, pending + pgszSrc, pending + pgszDest)
        invariant (result == Ok ==> Behind(Live(), dest, file, iOff)) && (Faultless(env) ==> result == Ok)
        decreases iEnd - iOff
      {
        ghost var before := dest;
        NextPage(iOff, iEnd, pgszSrc);
        result := WriteBehind(iOff, env);
        KeptTwice(old(dest), before, dest, pending + pgszSrc, pending + pgszDest);
        iOff := iOff + pgszSrc;
      }
      if result == Ok {
        BehindAll(Live(), dest, file, iOff, pending + pgszDest);
      }
    }

    // sqlite3PagerTruncateImage
    method TruncateImage(n: nat)
      modifies this`dest
      ensures dest == Resized(old(dest), n)
    {
      dest := Resized(dest, n);
    }

    // backupTruncateFile
    method TruncateFile(iSize: nat)
      modifies this`dest
      ensures dest == if |old(dest)| > iSize then old(dest)[..iSize] else old(dest)
    {
      if |dest| > iSize {
        dest := dest[..iSize];
      }
    }

    // The header fields that a finished backup leaves.
    ghost function Expected(): Header
      reads this`headCount, this`iDestSchema, this`stamp
    {
      Header(headCount, (iDestSchema + 1) % U32, isWal, stamp)
    }

    // The destination is the source, but for the source's pending byte page and
    // the stamped header fields, and the schema cookie has changed.
    ghost predicate Complete()
      reads this`dest, this`file, this`nSrcPage, this`pgszDest, this`loose, this`iDestSchema, this`stamp, this`headCount
    {
      && HasHeader(dest, Expected())
      && (if nSrcPage == 0 then |dest| == pgszSrc else |dest| <= |file|)
      && (nSrcPage > 0 && |file| != pending + pgszSrc ==> |dest| == |file|)
      && Exact(Live(), dest, file, Changed())
    }

    // The first phase of the commit; nothing is stamped in a memory database.
    method CommitPhaseOne(env: Env) returns (result: Rc)
      requires Sound() && Stamped(Live(), dest, file, Changed()) && stamp == CommitOf(env) && |dest| >= pgszDest
      requires HasHeader(dest, Expected().(stamp := Nothing))
      modifies this`dest
      ensures result == Ok || result == IOERR
      ensures result == Ok ==>
        Stamped(Live(), dest, file, Changed()) && HasHeader(dest, Expected()) && |dest| == |old(dest)|
      ensures Faultless(env) ==> result == Ok
    {
      if !env.commits {
        return IOERR;
      }
      if stamp.CommitStamp? {
        WriteChangeCounter(Expected().(stamp := Nothing));
      }
      result := Ok;
    }

    function CommitOf(env: Env): CommitStamp {
      if isMemdb then Nothing else env.stamp
    }

    // The end of a backup that has copied every page.
    method Finalize(blank: seq<byte>, env: Env) returns (result: Rc)
      requires Sound() && !inWrite && InPlace() && iNext > nSrcPage && |blank| == pgszDest
      modifies this`dest, this`stamp, this`headCount
      ensures result == Done || result == IOERR
      ensures headCount == if nSrcPage == 0 then blank[28..32] else old(headCount)
      ensures result == Done ==> Complete() && stamp == CommitOf(env)
      ensures Faultless(env) ==> result == Done
    {
      stamp := CommitOf(env);
      StampHeader(blank);
      var nPage := if nSrcPage == 0 then 1 else nSrcPage;
      if pgszSrc < pgszDest {
        result := CommitPhaseOne(env);
        if result == Ok {
          result := CopyTail(nPage, env);
        }
      } else {
        result := CutAndCommit(nPage, env);
      }
      if result == Ok {
        result := Done;
      }
    }

    method CutAndCommit(nPage: nat, env: Env) returns (result: Rc)
      requires Sound() && pgszDest <= pgszSrc && nPage == (if nSrcPage == 0 then 1 else nSrcPage)
      requires stamp == CommitOf(env)
      requires Stamped(Live(), dest, file, Changed()) && HasHeader(dest, Expected().(stamp := Nothing))
      requires |dest| >= pgszDest
      modifies this`dest
      ensures result == Ok || result == IOERR
      ensures result == Ok ==> Complete()
      ensures Faultless(env) ==> result == Ok
    {
      var nDestTruncate := nPage * (pgszSrc / pgszDest);
      WholePages(Geo(), nPage);
      TimesIs(nPage, pgszSrc);
      StampedExact(Live(), dest, file, Changed());
      ghost var before := dest;
      TruncateImage(nDestTruncate * pgszDest);
      Cut(Live(), before, dest, file, Changed(), nPage);
      HeaderStays(before, dest, Expected().(stamp := Nothing));
      ExactStamped(Live(), dest, file, Changed());
      TimesLe(1, nPage, pgszSrc);
      result := CommitPhaseOne(env);
      if result == Ok {
        StampedExact(Live(), dest, file, Changed());
      }
    }

    // nDestTruncate for a destination of larger pages, with what the source
    // asserts about it.
    method LastPage(nPage: nat) returns (nDestTruncate: nat)
      requires Geo().Valid() && pgszSrc < pgszDest && nPage >= 1
      ensures nDestTruncate > 0
      ensures var iSize := pgszSrc * nPage;
        nDestTruncate * pgszDest >= iSize ||
        (nDestTruncate == pending / pgszDest && pending <= iSize <= pending + pgszDest)
    {
      var ratio := pgszDest / pgszSrc;
      RoundUp(Geo(), nPage, ratio);
      TruncationPoint(Geo(), nPage, ratio);
      nDestTruncate := (nPage + ratio - 1) / ratio;
      if nDestTruncate == pending / pgszDest + 1 {
        nDestTruncate := nDestTruncate - 1;
      }
    }

    method CopyTail(nPage: nat, env: Env) returns (result: Rc)
      requires Sound() && !inWrite && pgszSrc < pgszDest && nPage == (if nSrcPage == 0 then 1 else nSrcPage)
      requires Stamped(Live(), dest, file, Changed()) && |dest| >= pgszDest && HasHeader(dest, Expected())
      requires Reached(Geo(), dest, |file|)
      modifies this`dest
      ensures result == Ok || result == IOERR
      ensures result == Ok ==> Complete()
      ensures Faultless(env) ==> result == Ok
    {
      var iSize := pgszSrc * nPage;
      TimesIs(nPage, pgszSrc);
      var nDestTruncate := LastPage(nPage);
      ghost var before := dest;
      result := CopyBehindPending(iSize, env);
      if result == Ok {
        StampedBehind(Live(), before, dest, file, Changed());
        HeaderStays(before, dest, Expected());
        LongEnough(Live(), dest, file, nSrcPage);
        CutFile(nPage, iSize);
      }
    }

    method CutFile(nPage: nat, iSize: nat)
      requires Sound() && pgszSrc < pgszDest && nPage == (if nSrcPage == 0 then 1 else nSrcPage)
      requires iSize == Times(nPage, pgszSrc) && Exact(Live(), dest, file, Changed()) && |dest| >= pgszDest
      requires HasHeader(dest, Expected())
      requires nSrcPage > 0 && |file| != pending + pgszSrc ==> |file| <= |dest|
      modifies this`dest
      ensures Complete()
    {
      ghost var before := dest;
      TruncateFile(iSize);
      Cut(Live(), before, dest, file, Changed(), nPage);
      HeaderStays(before, dest, Expected());
    }

    // The first lock of the destination, after its page size has been set to
    // that of the source if it can be.
    method LockDest(env: Env) returns (result: Rc)
      requires Valid() && !IsFatal(rc) && !env.lock.Done?
      modifies this`pgszDest, this`bDestLocked, this`iDestSchema, this`saved
      ensures Valid() && (result == Ok ==> bDestLocked) && !result.Done?
      ensures result == if old(bDestLocked) then Ok else env.lock
      ensures pgszDest == if old(bDestLocked) || env.sizeFixed then old(pgszDest) else pgszSrc
      ensures saved == old(saved) && bDestLocked == (old(bDestLocked) || env.lock == Ok)
    {
      result := Ok;
      if !bDestLocked {
        if !env.sizeFixed {
          pgszDest := pgszSrc;
          EqualSizes(Geo());
        }
        result := env.lock;
        if result == Ok {
          bDestLocked, iDestSchema, saved := true, cookie, dest;
        }
      }
    }

    method Conclude(env: Env) returns (result: Rc)
      requires Sound() && !inWrite && iNext > nSrcPage && InPlace()
      modifies this`dest, this`stamp, this`headCount
      ensures result == Done || result == IOERR
      ensures headCount == if nSrcPage == 0 then Resized(env.blank, pgszDest)[28..32] else old(headCount)
      ensures result == Done ==> Complete() && stamp == CommitOf(env)
      ensures Faultless(env) ==> result == Done
    {
      result := Finalize(Resized(env.blank, pgszDest), env);
    }

    // The page count in a finished backup: that of a new database if the source
    // is empty, that of the source when its page 1 was copied last, or what page
    // 1 held when it was last reported.
    ghost function FinalCount(from: nat, was: seq<byte>, env: Env): seq<byte>
      requires pgszDest >= 32
      reads this`nSrcPage, this`pgszDest
    {
      if nSrcPage == 0 then Resized(env.blank, pgszDest)[28..32] else if from == 1 then Put4(nSrcPage) else was
    }

    // The progress that sqlite3_backup_pagecount and _remaining report.
    predicate Counted()
      reads this`nSrcPage, this`nPagecount, this`nRemaining, this`iNext
    {
      nPagecount == nSrcPage && nRemaining == (nSrcPage + 1 - iNext) % U32
    }

    method CountPages()
      modifies this`nRemaining, this`nPagecount
      ensures Counted()
    {
      nPagecount, nRemaining := nSrcPage, (nSrcPage + 1 - iNext) % U32;
    }

    // The part of sqlite3_backup_step after the copying loop.
    method EndStep(env: Env) returns (result: Rc)
      requires Sound() && bDestLocked && !inWrite && InPlace()
      modifies this`dest, this`nRemaining, this`nPagecount, this`isAttached, this`stamp, this`headCount
      ensures Sound() && Counted() && (result == Ok || result == Done || result == IOERR)
      ensures result == Ok ==> isAttached && InPlace() && iNext <= nSrcPage && headCount == old(headCount)
      ensures result == Done ==> Complete() && stamp == CommitOf(env) && iNext > nSrcPage
      ensures result == Done ==> headCount == FinalCount(2, old(headCount), env)
      ensures Faultless(env) ==> result == if iNext > nSrcPage then Done else Ok
    {
      result := Ok;
      CountPages();
      if iNext > nSrcPage {
        result := Conclude(env);
      } else if !isAttached {
        isAttached := true;
      }
    }

    // The copying and finishing part of sqlite3_backup_step.
    method Advance(nPage: int, env: Env) returns (result: Rc)
      requires Valid() && !IsFatal(rc) && bDestLocked && !inWrite
      modifies this`dest, this`iNext, this`nRemaining, this`nPagecount, this`isAttached, this`stamp, this`headCount
      ensures Sound() && !result.Busy? && !result.Locked?
      ensures result == Ok ==> isAttached && InPlace() && iNext <= nSrcPage
      ensures result == Ok ==> 0 <= nPage && iNext == old(iNext) + nPage
      ensures result == Done ==> Complete() && stamp == CommitOf(env) && iNext > nSrcPage && old(iNext) <= iNext
      ensures result == Ok ==> headCount == if old(iNext) == 1 < iNext then Put4(nSrcPage) else old(headCount)
      ensures result == Done ==> headCount == FinalCount(old(iNext), old(headCount), env)
      ensures result == Ok || result == Done ==> Counted()
      ensures Faultless(env) ==> result == if iNext > nSrcPage then Done else Ok
    {
      result := CopyPages(nPage, env);
      if result == Ok {
        result := EndStep(env);
      }
    }

    // Page sizes that a destination in WAL mode or in memory does not allow.
    predicate Mismatched()
      reads this`pgszDest
    {
      (isWal || isMemdb) && pgszSrc != pgszDest
    }

    // Both locks can be had.
    predicate Grants(env: Env, bDestLocked: bool)
      reads this`inWrite
    {
      !inWrite && env.srcLock == Ok && (bDestLocked || env.lock == Ok)
    }

    // The page size that a step leaves to the destination.
    function PageSize(env: Env, bDestLocked: bool, size: nat): nat
      reads this`inWrite
    {
      if bDestLocked || inWrite || env.srcLock != Ok || env.sizeFixed then size else pgszSrc
    }

    // The locks that a step takes first, and the check of the page sizes.
    method TakeLocks(env: Env) returns (result: Rc)
      requires Valid() && !IsFatal(rc) && !env.lock.Done? && !env.srcLock.Done?
      modifies this`pgszDest, this`bDestLocked, this`iDestSchema, this`saved
      ensures Valid() && !result.Done? && saved == old(saved)
      ensures bDestLocked == (old(bDestLocked) || Grants(env, false))
      ensures pgszDest == PageSize(env, old(bDestLocked), old(pgszDest))
      ensures inWrite ==> result == Busy
      ensures !inWrite && env.srcLock != Ok ==> result == env.srcLock
      ensures !inWrite && env.srcLock == Ok && !bDestLocked ==> result == env.lock
      ensures Grants(env, old(bDestLocked)) ==> result == if Mismatched() then READONLY else Ok
    {
      result := if inWrite then Busy else env.srcLock;
      if result == Ok {
        result := LockDest(env);
      }
      if result == Ok && Mismatched() {
        result := READONLY;
      }
    }

    // The body of sqlite3_backup_step when no error has ended the backup.
    method Attempt(nPage: int, env: Env) returns (result: Rc)
      requires Valid() && !IsFatal(rc) && !env.lock.Done? && !env.srcLock.Done?
      modifies this`dest, this`iNext, this`nRemaining, this`nPagecount, this`isAttached, this`stamp, this`headCount
      modifies this`pgszDest, this`bDestLocked, this`iDestSchema, this`saved
      ensures Sound() && (!IsFatal(result) ==> (!isAttached ==> iNext == 1) && InPlace())
      ensures saved == old(saved) && (!bDestLocked ==> dest == saved)
      ensures bDestLocked == (old(bDestLocked) || Grants(env, false))
      ensures pgszDest == PageSize(env, old(bDestLocked), old(pgszDest))
      ensures inWrite ==> result == Busy
      ensures !inWrite && env.srcLock != Ok ==> result == env.srcLock
      ensures !inWrite && env.srcLock == Ok && !bDestLocked ==> result == env.lock
      ensures Grants(env, old(bDestLocked)) && Mismatched() ==> result == READONLY
      ensures !Grants(env, old(bDestLocked)) || Mismatched() ==> dest == old(dest) && iNext == old(iNext)
      ensures Grants(env, old(bDestLocked)) && !Mismatched() ==> !result.Busy? && !result.Locked?
      ensures result == Ok || result == Done ==> bDestLocked && !Mismatched()
      ensures result == Done ==> Complete() && stamp == CommitOf(env) && iNext > nSrcPage
      ensures result == Done ==> headCount == FinalCount(old(iNext), old(headCount), env)
      ensures result == Ok ==> isAttached && 0 <= nPage && iNext == old(iNext) + nPage <= nSrcPage
      ensures result == Ok || result == Done ==> Counted()
      ensures Grants(env, old(bDestLocked)) && !Mismatched() && Faultless(env) ==>
        result == if iNext > nSrcPage then Done else Ok
    {
      result := TakeLocks(env);
      if result == Ok {
        result := Advance(nPage, env);
      }
    }

    // sqlite3_backup_step
    method Step(nPage: int, env: Env) returns (result: Rc)
      requires Valid() && !env.lock.Done? && !env.srcLock.Done?
      modifies this`dest, this`iNext, this`nRemaining, this`nPagecount, this`isAttached, this`stamp, this`headCount
      modifies this`pgszDest, this`bDestLocked, this`iDestSchema, this`saved, this`rc
      ensures Valid() && rc == result && saved == old(saved)
      ensures IsFatal(old(rc)) ==> result == old(rc) && dest == old(dest) && iNext == old(iNext)
      ensures IsFatal(old(rc)) ==> bDestLocked == old(bDestLocked) && pgszDest == old(pgszDest)
      ensures !IsFatal(old(rc)) ==> bDestLocked == (old(bDestLocked) || Grants(env, false))
      ensures !IsFatal(old(rc)) ==> pgszDest == PageSize(env, old(bDestLocked), old(pgszDest))
      ensures !IsFatal(old(rc)) && inWrite ==> result == Busy
      ensures !IsFatal(old(rc)) && !inWrite && env.srcLock != Ok ==> result == env.srcLock
      ensures !IsFatal(old(rc)) && !inWrite && env.srcLock == Ok && !bDestLocked ==> result == env.lock
      ensures !IsFatal(old(rc)) && Grants(env, old(bDestLocked)) && Mismatched() ==> result == READONLY
      ensures !IsFatal(old(rc)) && (!Grants(env, old(bDestLocked)) || Mismatched()) ==>
        dest == old(dest) && iNext == old(iNext)
      ensures !IsFatal(old(rc)) && Grants(env, old(bDestLocked)) && !Mismatched() ==> !result.Busy? && !result.Locked?
      ensures !IsFatal(old(rc)) && (result == Ok || result == Done) ==>
        !inWrite && bDestLocked && !Mismatched()
      ensures !IsFatal(old(rc)) && result == Done ==> Complete() && stamp == CommitOf(env) && iNext > nSrcPage
      ensures !IsFatal(old(rc)) && result == Done ==> headCount == FinalCount(old(iNext), old(headCount), env)
      ensures result == Ok ==> isAttached && 0 <= nPage && iNext == old(iNext) + nPage <= nSrcPage
      ensures !IsFatal(old(rc)) && (result == Ok || result == Done) ==> Counted()
      ensures !IsFatal(old(rc)) && Grants(env, old(bDestLocked)) && !Mismatched() && Faultless(env) ==>
        result == if iNext > nSrcPage then Done else Ok
    {
      result := rc;
      if !IsFatal(rc) {
        result := Attempt(nPage, env);
        rc := result;
      }
    }

    // What a rollback would restore, and the schema cookie with it.
    predicate Keeps(image: seq<byte>, schema: nat)
      reads this`saved, this`cookie
    {
      saved == image && cookie == schema
    }

    // sqlite3_backup_finish: what was not committed is rolled back.
    method Finish() returns (result: Rc)
      modifies this`dest
      ensures result == if rc == Done then Ok else rc
      ensures dest == if rc == Done || !bDestLocked then old(dest) else saved
      ensures old(Valid()) && rc != Done ==> dest == saved
    {
      if rc != Done && bDestLocked {
        dest := saved;
      }
      result := if rc == Done then Ok else rc;
    }

    // The source opens a write transaction.
    method BeginWrite()
      requires Valid()
      modifies this`inWrite
      ensures Valid() && Src() == old(Src()).(inWrite := true)
    {
      inWrite := true;
    }

    // A page is changed in the cache of the source.
    method Touch(i: nat, data: seq<byte>)
      requires Valid() && inWrite && i >= 1 && |data| == pgszSrc
      modifies this`dirty
      ensures Valid() && dirty == old(dirty)[i := data]
    {
      dirty := dirty[i := data];
    }

    // sqlite3PagerDontWrite: page i has become free.
    method DontWrite(i: nat)
      requires Valid() && inWrite && i >= 1
      modifies this`freed
      ensures Valid() && Src() == old(Src()).Free(i, pgszSrc)
    {
      freed := freed + Bytes(Times(i - 1, pgszSrc), Times(i, pgszSrc));
    }

    // sqlite3PagerGet without content: page i comes from the free list, and the
    // journal does not keep what it held.
    method GetNoContent(i: nat)
      requires Valid() && inWrite && i >= 1
      modifies this`reused
      ensures Valid() && Src() == old(Src()).Reuse(i, pgszSrc)
    {
      reused := reused + Bytes(Times(i - 1, pgszSrc), Times(i, pgszSrc));
    }

    // Where a page that is written ends.
    lemma WrittenEnd(i: nat)
      requires Sound() && i >= 1
      ensures Times(i - 1, pgszSrc) + pgszSrc == Times(i, pgszSrc)
      ensures Max(|file|, Times(i, pgszSrc)) == Times(Max(nSrcPage, i), pgszSrc)
    {
      if i <= nSrcPage {
        TimesLe(i, nSrcPage, pgszSrc);
      } else {
        TimesLe(nSrcPage, i, pgszSrc);
      }
    }

    // backupUpdate: a page below iNext was changed and is copied again.
    method BackupUpdate(iPage: nat, aData: seq<byte>, env: Env)
      requires Geo().Valid() && |aData| == pgszSrc && iPage >= 1 && bDestLocked && iNext >= 1
      modifies this`dest, this`rc, this`headCount
      ensures IsFatal(old(rc)) || iPage >= iNext ==> dest == old(dest) && rc == old(rc)
      ensures headCount == if !IsFatal(rc) && iPage == 1 < iNext then aData[28..32] else old(headCount)
      ensures !IsFatal(rc) && old(iNext > 1 ==> HasCount(dest, headCount)) ==> iNext > 1 ==> HasCount(dest, headCount)
      ensures Kept(old(dest), dest, Times(iPage - 1, pgszSrc), Times(iPage, pgszSrc))
      ensures Times(iPage - 1, pgszSrc) + pgszSrc == Times(iPage, pgszSrc)
      ensures rc == old(rc) || (rc == IOERR && !IsFatal(old(rc)))
      ensures !IsFatal(rc) && iPage < iNext ==>
        Copied(Geo(), dest, aData, Times(iPage - 1, pgszSrc), Times(iPage, pgszSrc))
      ensures env.destFaults == {} ==> rc == old(rc)
    {
      if !IsFatal(rc) && iPage < iNext {
        ghost var before := dest;
        var result := BackupOnePage(iPage, aData, true, env);
        if result != Ok {
          rc := result;
        } else if iPage == 1 {
          headCount := aData[28..32];
        } else if HasCount(before, headCount) {
          CountStays(before, dest, iPage, pgszSrc, headCount);
        }
      }
    }

    // The pager writes page i to the source file and reports it to attached
    // backups.
    method WriteBack(i: nat, data: seq<byte>, env: Env)
      requires Valid() && inWrite && |data| == pgszSrc && MayWrite(i, pgszSrc, pending)
      modifies this`file, this`nSrcPage, this`loose, this`freed, this`dest, this`rc, this`headCount
      ensures headCount == if isAttached && !IsFatal(rc) && i == 1 < iNext then data[28..32] else old(headCount)
      ensures Valid() && Src() == old(Src()).Write(i, data, pgszSrc)
      ensures !(isAttached && !IsFatal(old(rc)) && i < iNext) ==> dest == old(dest) && rc == old(rc)
      ensures rc == old(rc) || (rc == IOERR && !IsFatal(old(rc)))
      ensures env.destFaults == {} ==> rc == old(rc)
    {
      ghost var file0, g0 := file, Live();
      WriteFile(i, data);
      if isAttached {
        Report(i, data, env, file0, g0);
      }
    }

    method WriteFile(i: nat, data: seq<byte>)
      requires Sound() && inWrite && |data| == pgszSrc && i >= 1
      modifies this`file, this`nSrcPage, this`loose, this`freed
      ensures Sound() && Src() == old(Src()).Write(i, data, pgszSrc)
      ensures Written(old(file), file, Times(i - 1, pgszSrc), data, Times(i, pgszSrc))
      ensures Times(i - 1, pgszSrc) + pgszSrc == Times(i, pgszSrc)
      ensures StaysLoose(old(Live()), Live(), |old(file)|, Times(i - 1, pgszSrc), Times(i, pgszSrc))
    {
      WrittenEnd(i);
      var start := Times(i - 1, pgszSrc);
      loose := loose + Bytes(|file|, start) - Bytes(start, start + pgszSrc);
      freed := freed - Bytes(start, start + pgszSrc);
      file := Overlay(file, start, data, start + pgszSrc);
      nSrcPage := Max(nSrcPage, i);
    }

    // The source file was file0, with the free pages of g0, before page i was written.
    method Report(i: nat, data: seq<byte>, env: Env, ghost file0: seq<byte>, ghost g0: Geometry)
      requires Sound() && isAttached && |data| == pgszSrc && i >= 1
      requires Times(i - 1, pgszSrc) + pgszSrc == Times(i, pgszSrc)
      requires g0 == Live().(loose := g0.loose)
      requires StaysLoose(g0, Live(), |file0|, Times(i - 1, pgszSrc), Times(i, pgszSrc))
      requires Written(file0, file, Times(i - 1, pgszSrc), data, Times(i, pgszSrc))
      requires !IsFatal(rc) ==> Copied(g0, dest, file0, 0, Min(Times(iNext - 1, pgszSrc), |file0|))
      requires !IsFatal(rc) ==> Reached(Geo(), dest, Times(iNext - 1, pgszSrc))
      requires !IsFatal(rc) && iNext > 1 ==> HasCount(dest, headCount)
      modifies this`dest, this`rc, this`headCount
      ensures headCount == if !IsFatal(rc) && i == 1 < iNext then data[28..32] else old(headCount)
      ensures rc == old(rc) || (rc == IOERR && !IsFatal(old(rc)))
      ensures IsFatal(old(rc)) || i >= iNext ==> dest == old(dest) && rc == old(rc)
      ensures !IsFatal(rc) ==> InPlace()
      ensures env.destFaults == {} ==> rc == old(rc)
    {
      ghost var dest0 := dest;
      BackupUpdate(i, data, env);
      if !IsFatal(rc) {
        ghost var start, end, n := Times(i - 1, pgszSrc), Times(i, pgszSrc), Times(iNext - 1, pgszSrc);
        assert i >= iNext ==> n <= start by {
          if i >= iNext {
            TimesLe(iNext - 1, i - 1, pgszSrc);
          }
        }
        StillMatches(g0, Live(), file0, dest0, file, dest, start, end, data, n);
      }
    }

    // The commit extends the source file to n pages; the new ones are free.
    method Extend(n: nat)
      requires Valid() && inWrite && nSrcPage <= n
      modifies this`file, this`nSrcPage, this`loose
      ensures Valid() && Src() == old(Src()).Extend(n, pgszSrc)
    {
      ghost var g, before := Live(), file;
      TimesLe(nSrcPage, n, pgszSrc);
      TimesIs(n, pgszSrc);
      loose := loose + Bytes(|file|, n * pgszSrc);
      file := Padded(file, n * pgszSrc);
      nSrcPage := n;
      if !IsFatal(rc) {
        LongerMatches(g, Live(), dest, before, file, Times(iNext - 1, pgszSrc));
      }
    }

    // The source file is cut to n pages.
    method Shrink(n: nat)
      requires Valid() && inWrite && n <= nSrcPage
      modifies this`file, this`nSrcPage, this`loose
      ensures Valid() && Src() == old(Src()).Shrink(n, pgszSrc)
      ensures |file| == Times(n, pgszSrc) && file <= old(file)
    {
      ghost var g, before := Live(), file;
      TimesLe(n, nSrcPage, pgszSrc);
      TimesIs(n, pgszSrc);
      ResizedIs(file, n * pgszSrc);
      loose := loose * Bytes(0, n * pgszSrc);
      file := file[..n * pgszSrc];
      nSrcPage := n;
      if !IsFatal(rc) {
        FewerMatch(g, Live(), dest, before, file, Times(iNext - 1, pgszSrc));
      }
    }

    // The write transaction ends, and what was not written back is dropped.
    method EndWrite(commit: bool)
      requires Valid() && inWrite
      modifies this`dirty, this`inWrite, this`loose, this`freed, this`reused
      ensures Valid() && Src() == old(Src()).End(commit)
    {
      Loosen(if commit then freed else reused);
      dirty, inWrite, freed, reused := map[], false, {}, {};
    }

    method Loosen(more: set<nat>)
      requires Valid()
      modifies this`loose
      ensures Valid() && loose == old(loose) + more
    {
      ghost var g := Live();
      loose := loose + more;
      if !IsFatal(rc) {
        LooserMatches(g, Live(), dest, file, Times(iNext - 1, pgszSrc));
      }
    }

    // Another process has changed the source: the backup starts again.
    method Restart(newFile: seq<byte>, n: nat)
      requires Valid() && !inWrite && |newFile| == Times(n, pgszSrc)
      modifies this`file, this`nSrcPage, this`loose, this`iNext
      ensures Valid() && Src() == Source(newFile, n, false, {}, {}, {})
      ensures iNext == if isAttached then 1 else old(iNext)
    {
      file, nSrcPage, loose := newFile, n, {};
      if isAttached {
        iNext := 1;
      }
    }
  }

  lemma ResizedIs(image: seq<byte>, n: nat)
    requires n <= |image|
    ensures Resized(image, n) == image[..n]
  {
  }

  // What becomes of the free pages when start..end of a file of the given size
  // is written.
  ghost predicate StaysLoose(g0: Geometry, g: Geometry, size: nat, start: nat, end: nat) {
    && (forall o :: o in g0.loose && !(start <= o < end) ==> o in g.loose)
    && forall o: nat :: size <= o < start ==> o in g.loose
  }

  // A page written and, if it lies below n, copied again.
  lemma StillMatches(g0: Geometry, g: Geometry, file0: seq<byte>, dest0: seq<byte>, file: seq<byte>, dest: seq<byte>,
                     start: nat, end: nat, data: seq<byte>, n: nat)
    requires g.Valid() && g0 == g.(loose := g0.loose) && |data| == g.src && end == start + g.src
    requires StaysLoose(g0, g, |file0|, start, end)
    requires Written(file0, file, start, data, end) && Kept(dest0, dest, start, end)
    requires Copied(g0, dest0, file0, 0, Min(n, |file0|))
    requires n <= start || Copied(g.Plain(), dest, data, start, end)
    ensures Copied(g, dest, file, 0, Min(n, |file|))
  {
    forall o | 0 <= o < Min(n, |file|) && !g.Hole(o) && !IsPageCount(o) ensures AtOffset(dest, file, 0, o) {
      if start <= o < start + g.src {
        assert !g.Plain().Hole(o);
        CopiedAt(g.Plain(), dest, data, start, end, o);
      } else {
        assert o < |file0|;
        CopiedAt(g0, dest0, file0, 0, Min(n, |file0|), o);
      }
    }
  }

  lemma LooserMatches(g0: Geometry, g: Geometry, image: seq<byte>, file: seq<byte>, n: nat)
    requires g0 == g.(loose := g0.loose) && g0.loose <= g.loose && Copied(g0, image, file, 0, Min(n, |file|))
    ensures Copied(g, image, file, 0, Min(n, |file|))
  {
    forall o | 0 <= o < Min(n, |file|) && !g.Hole(o) && !IsPageCount(o) ensures AtOffset(image, file, 0, o) {
      CopiedAt(g0, image, file, 0, Min(n, |file|), o);
    }
  }

  // A longer file whose new pages are free.
  lemma LongerMatches(g0: Geometry, g: Geometry, image: seq<byte>, before: seq<byte>, file: seq<byte>, n: nat)
    requires g0 == g.(loose := g0.loose) && g.loose == g0.loose + Bytes(|before|, |file|)
    requires |before| <= |file| && forall o :: 0 <= o < |before| ==> file[o] == before[o]
    requires Copied(g0, image, before, 0, Min(n, |before|))
    ensures Copied(g, image, file, 0, Min(n, |file|))
  {
    forall o | 0 <= o < Min(n, |file|) && !g.Hole(o) && !IsPageCount(o) ensures AtOffset(image, file, 0, o) {
      assert o < |before|;
      CopiedAt(g0, image, before, 0, Min(n, |before|), o);
    }
  }

  lemma EqualSizes(g: Geometry)
    requires 512 <= g.src == g.dest && g.pending % g.src == 0 && g.src <= g.pending
    ensures g.Valid()
  {
    TimesMultiple(1, g.src);
  }

  lemma FewerMatch(g0: Geometry, g: Geometry, image: seq<byte>, before: seq<byte>, file: seq<byte>, n: nat)
    requires |file| <= |before| && file == before[..|file|]
    requires g0 == g.(loose := g0.loose) && g.loose == g0.loose * Bytes(0, |file|)
    requires Copied(g0, image, before, 0, Min(n, |before|))
    ensures Copied(g, image, file, 0, Min(n, |file|))
  {
    forall o | 0 <= o < Min(n, |file|) && !g.Hole(o) && !IsPageCount(o)
      ensures AtOffset(image, file, 0, o)
    {
      CopiedAt(g0, image, before, 0, Min(n, |before|), o);
    }
  }

  // The schema cookie of a finished backup differs from the one the destination
  // had when it was locked.
  lemma CookieChanges(b: Backup)
    requires b.Sound() && b.Complete()
    ensures Get4(b.dest, 40) == (b.iDestSchema + 1) % U32 && Get4(b.dest, 40) != b.iDestSchema
  {
    PutGet((b.iDestSchema + 1) % U32, b.dest, 40);
  }

  // All source bytes outside the source's pending byte page, its free pages and
  // the stamps.
  ghost predicate Exact(g: Geometry, image: seq<byte>, file: seq<byte>, f: Fields) {
    forall o {:trigger image[o]} {:trigger file[o]} ::
      0 <= o < |file| && !(g.pending <= o < g.pending + g.src) && o !in g.loose && !IsStamp(o, f) ==>
      o < |image| && image[o] == file[o]
  }

  lemma StampedExact(g: Geometry, image: seq<byte>, file: seq<byte>, f: Fields)
    requires Stamped(g, image, file, f) && g.dest <= g.src
    ensures Exact(g, image, file, f)
  {
    forall o | 0 <= o < |file| && !(g.pending <= o < g.pending + g.src) && o !in g.loose && !IsStamp(o, f)
      ensures o < |image| && image[o] == file[o]
    {
      var b := file[o];
      assert !g.Hole(o);
    }
  }

  lemma ExactStamped(g: Geometry, image: seq<byte>, file: seq<byte>, f: Fields)
    requires Exact(g, image, file, f) && g.dest <= g.src
    ensures Stamped(g, image, file, f)
  {
    forall o | 0 <= o < |file| && !g.Hole(o) && !IsStamp(o, f) ensures o < |image| && image[o] == file[o] {
      var b := file[o];
    }
  }

  lemma CounterSet(a: seq<byte>, b: seq<byte>, c: seq<byte>, d: seq<byte>, h: Header, stamp: CommitStamp)
    requires HasHeader(a, h) && h.stamp == Nothing && stamp.CommitStamp? && |a| <= |b| <= |c| <= |d|
    requires var counter := (stamp.dbFileVers + 1) % U32;
      b[24..28] == c[92..96] == Put4(counter) && d[96..100] == Put4(stamp.version)
    requires Kept(a, b, 24, 28) && Kept(b, c, 92, 96) && Kept(c, d, 96, 100)
    ensures HasHeader(d, h.(stamp := stamp))
  {
    KeptSlice(b, c, 92, 96, 24, 28);
    KeptSlice(c, d, 96, 100, 24, 28);
    KeptSlice(c, d, 96, 100, 92, 96);
    HeaderAround(a, b, h, 24, 28);
    HeaderAround(b, c, h, 92, 96);
    HeaderAround(c, d, h, 96, 100);
  }

  // Changes to other bytes leave the header fields set so far.
  lemma HeaderAround(a: seq<byte>, b: seq<byte>, h: Header, from: nat, to: nat)
    requires HasHeader(a, h) && h.stamp == Nothing && Kept(a, b, from, to)
    requires 20 <= from < to <= 28 || 44 <= from < to
    ensures HasHeader(b, h)
  {
    KeptSlice(a, b, from, to, 18, 20);
    KeptSlice(a, b, from, to, 28, 32);
    KeptSlice(a, b, from, to, 40, 44);
  }

  lemma StampedBehind(g: Geometry, before: seq<byte>, image: seq<byte>, file: seq<byte>, f: Fields)
    requires Stamped(g, before, file, f) && Kept(before, image, g.pending + g.src, g.pending + g.dest)
    requires g.src < g.dest && Behind(g, image, file, g.pending + g.dest)
    ensures Exact(g, image, file, f)
  {
    forall o | 0 <= o < |file| && !(g.pending <= o < g.pending + g.src) && o !in g.loose && !IsStamp(o, f)
      ensures o < |image| && image[o] == file[o]
    {
      var b := file[o];
      if o < g.pending || g.pending + g.dest <= o {
        assert !g.Hole(o);
        assert o < |before| && before[o] == b;
      } else {
        assert AgreesAt(g, image, file, o);
      }
    }
  }

  // Cutting the image at the size of the source loses nothing.
  lemma Cut(g: Geometry, before: seq<byte>, image: seq<byte>, file: seq<byte>, f: Fields, nPage: nat)
    requires g.Valid() && Exact(g, before, file, f) && |before| >= g.dest && nPage >= 1
    requires |file| == Times(nPage, g.src) || (|file| == 0 && nPage == 1)
    requires g.src < g.dest && |file| > 0 && |file| != g.pending + g.src ==> |file| <= |before|
    requires var n := Times(nPage, g.src);
      if g.src < g.dest then image == if |before| > n then before[..n] else before else image == Resized(before, n)
    ensures Exact(g, image, file, f) && |image| >= 512
    ensures forall o :: 0 <= o < 512 ==> image[o] == before[o]
    ensures if |file| == 0 then |image| == g.src else |image| <= |file|
    ensures |file| > 0 && |file| != g.pending + g.src ==> |image| == |file|
  {
    TimesLe(1, nPage, g.src);
    CutExact(g, before, image, file, f);
  }

  lemma SameSlice(a: seq<byte>, b: seq<byte>, lo: nat, hi: nat)
    requires lo <= hi <= |a| && hi <= |b| && forall o :: lo <= o < hi ==> a[o] == b[o]
    ensures a[lo..hi] == b[lo..hi]
  {
  }

  lemma CutExact(g: Geometry, before: seq<byte>, image: seq<byte>, file: seq<byte>, f: Fields)
    requires Exact(g, before, file, f)
    requires forall o :: 0 <= o < |before| && o < |file| ==> o < |image| && image[o] == before[o]
    ensures Exact(g, image, file, f)
  {
    forall o | 0 <= o < |file| && !(g.pending <= o < g.pending + g.src) && o !in g.loose && !IsStamp(o, f)
      ensures SameAt(image, file, o)
    {
      var b := file[o];
      assert o < |before| && before[o] == b;
    }
  }

  // The last source byte is in the image, unless it is in the pending byte page.
  lemma LongEnough(g: Geometry, image: seq<byte>, file: seq<byte>, nPage: nat)
    requires g.Valid() && g.src < g.dest && Reached(g.Plain(), image, |file|) && |file| == Times(nPage, g.src)
    requires Behind(g, image, file, g.pending + g.dest)
    ensures |file| > 0 && |file| != g.pending + g.src ==> |file| <= |image|
  {
    if |file| > 0 && |file| != g.pending + g.src {
      TimesMultiple(nPage, g.src);
      TimesMultiple(0, g.src);
      Gap(0, |file|, g.src);
      if g.pending < |file| {
        Gap(g.pending, |file|, g.src);
      }
      assert AgreesAt(g, image, file, |file| - 1) || !g.Plain().Hole(|file| - 1);
    }
  }

  // nDestTruncate for a larger destination page: the pages it takes to hold n
  // source pages.
  lemma RoundUp(g: Geometry, n: nat, ratio: nat)
    requires g.Valid() && g.src < g.dest && ratio == g.dest / g.src && n >= 1
    ensures ratio >= 1 && g.dest == ratio * g.src
    ensures var up := (n + ratio - 1) / ratio;
      up >= 1 && (up - 1) * g.dest < n * g.src <= up * g.dest
  {
    DividesDown(g);
    Division.DivMod(g.dest, g.src);
    var up := (n + ratio - 1) / ratio;
    Division.DivMod(n + ratio - 1, ratio);
    Division.MulStep(ratio, up - 1);
    assert (up - 1) * ratio < n <= up * ratio;
    Division.MulLe(g.src, n, up * ratio);
    Division.MulLe(g.src, (up - 1) * ratio + 1, n);
    Division.MulStep(g.src, (up - 1) * ratio);
    Regroup(g.src, ratio, up);
    Regroup(g.src, ratio, up - 1);
  }

  lemma Regroup(a: int, b: int, c: int)
    ensures a * (c * b) == c * (b * a)
  {
  }

  // What the source asserts about nDestTruncate always holds.
  lemma TruncationPoint(g: Geometry, n: nat, ratio: nat)
    requires g.Valid() && g.src < g.dest && ratio == g.dest / g.src >= 1 && n >= 1
    ensures var up := (n + ratio - 1) / ratio;
      var nDestTruncate := if up == g.pending / g.dest + 1 then up - 1 else up;
      && nDestTruncate > 0
      && (nDestTruncate * g.dest >= g.src * n ||
          (nDestTruncate == g.pending / g.dest && g.pending <= g.src * n <= g.pending + g.dest))
  {
    RoundUp(g, n, ratio);
    Division.DivMod(g.pending, g.dest);
    Division.MulStep(g.dest, g.pending / g.dest);
    if g.pending / g.dest == 0 {
      Division.Unique(g.pending, g.dest, 0, g.pending);
    }
  }

  lemma WholePages(g: Geometry, n: nat)
    requires g.Valid() && g.dest <= g.src
    ensures n * (g.src / g.dest) * g.dest == g.src * n
  {
    DividesDown(g);
    Division.DivMod(g.src, g.dest);
    Regroup(g.dest, g.src / g.dest, n);
  }

  lemma NextPage(iOff: nat, iEnd: nat, n: nat)
    requires 0 < n && iOff % n == 0 && iEnd % n == 0 && iOff < iEnd
    ensures iOff + n <= iEnd && (iOff + n) % n == 0
  {
    Gap(iOff, iEnd, n);
    TimesMultiple(1, n);
    SumMultiple(iOff, n, n);
  }

  lemma BehindAll(g: Geometry, image: seq<byte>, file: seq<byte>, from: nat, to: nat)
    requires Behind(g, image, file, from) && (from >= |file| || from >= to)
    ensures Behind(g, image, file, to)
  {
  }

  // Header bytes that a finished backup may change.
  predicate IsStamp(o: int, f: Fields) {
    IsPageCount(o) || 40 <= o < 44 || (f.wal && 18 <= o < 20) || (f.counted && (24 <= o < 28 || 92 <= o < 100))
  }

  // All source bytes but those of the hole and the stamps are in the image.
  ghost predicate Stamped(g: Geometry, image: seq<byte>, file: seq<byte>, f: Fields) {
    forall o {:trigger image[o]} {:trigger file[o]} :: 0 <= o < |file| && !g.Hole(o) && !IsStamp(o, f) ==>
      o < |image| && image[o] == file[o]
  }

  lemma StampedByCopy(g: Geometry, image: seq<byte>, file: seq<byte>, f: Fields)
    requires Copied(g, image, file, 0, |file|)
    ensures Stamped(g, image, file, f)
  {
    forall o | 0 <= o < |file| && !g.Hole(o) && !IsStamp(o, f) ensures o < |image| && image[o] == file[o] {
      CopiedAt(g, image, file, 0, |file|, o);
    }
  }

  lemma StampedStill(g: Geometry, before: seq<byte>, image: seq<byte>, file: seq<byte>, f: Fields, from: nat, to: nat)
    requires Stamped(g, before, file, f) && Kept(before, image, from, to)
    requires forall o :: from <= o < to ==> IsStamp(o, f)
    ensures Stamped(g, image, file, f)
  {
    forall o | 0 <= o < |file| && !g.Hole(o) && !IsStamp(o, f) ensures o < |image| && image[o] == file[o] {
      var b := file[o];
      assert o < |before| && before[o] == b;
    }
  }

  predicate SameAt(image: seq<byte>, file: seq<byte>, o: int)
    requires 0 <= o < |file|
  {
    o < |image| && image[o] == file[o]
  }

  predicate AgreesAt(g: Geometry, image: seq<byte>, file: seq<byte>, o: int)
    requires 0 <= o < |file|
  {
    o < |image| && (o in g.loose || image[o] == file[o])
  }

  // Source bytes of the hole behind the source's own pending byte page.
  ghost predicate Behind(g: Geometry, image: seq<byte>, file: seq<byte>, to: nat) {
    forall o :: g.pending + g.src <= o < to && o < |file| ==> AgreesAt(g, image, file, o)
  }

  lemma BehindMore(g: Geometry, before: seq<byte>, image: seq<byte>, file: seq<byte>, iOff: nat, page: seq<byte>)
    requires Behind(g, before, file, iOff) && |page| == g.src && iOff + g.src <= |file| && g.pending + g.src <= iOff
    requires page == file[iOff..iOff + g.src] || Bytes(iOff, iOff + g.src) <= g.loose
    requires image == Overlay(before, iOff, page, iOff + g.src)
    ensures Behind(g, image, file, iOff + g.src) && Kept(before, image, iOff, iOff + g.src)
  {
    forall o | g.pending + g.src <= o < iOff + g.src && o < |file| ensures AgreesAt(g, image, file, o) {
      if o < iOff {
        assert AgreesAt(g, before, file, o);
      } else {
        assert o in Bytes(iOff, iOff + g.src);
        assert image[o] == page[o - iOff];
      }
    }
  }

  lemma EndMultiple(g: Geometry, n: nat)
    requires g.Valid() && g.src < g.dest
    ensures Times(n, g.src) % g.src == 0 && g.src % g.src == 0
    ensures (g.pending + g.dest) % g.src == 0 && (g.pending + g.src) % g.src == 0
  {
    TimesMultiple(n, g.src);
    TimesMultiple(1, g.src);
    DividesDown(g);
    SumMultiple(g.pending, g.dest, g.src);
    SumMultiple(g.pending, g.src, g.src);
  }

  const U32: nat := 0x1_0000_0000

  // The first page past the pending byte in pages of the source.
  lemma PendingPage(g: Geometry, i: nat)
    requires g.Valid() && i == g.pending / g.src + 1
    ensures Times(i - 1, g.src) == g.pending
    ensures forall o :: g.pending <= o < g.pending + g.src ==> g.Hole(o)
  {
    Division.DivMod(g.pending, g.src);
    TimesIs(i - 1, g.src);
  }

  // One more page is in place: that of the file, unless the page is free.
  lemma MatchesMore(g: Geometry, before: seq<byte>, image: seq<byte>, file: seq<byte>, page: seq<byte>, from: nat,
                    to: nat)
    requires from <= to <= |file| && |page| == to - from
    requires page == file[from..to] || Bytes(from, to) <= g.loose
    requires Copied(g, before, file, 0, from) && Reached(g.Plain(), before, from)
    requires Kept(before, image, from, to) && Copied(g.Plain(), image, page, from, to)
    ensures Copied(g, image, file, 0, to) && Reached(g.Plain(), image, to)
  {
    forall o | 0 <= o < to && !g.Hole(o) && !IsPageCount(o) ensures AtOffset(image, file, 0, o) {
      if o < from {
        CopiedAt(g, before, file, 0, from, o);
      } else {
        assert o in Bytes(from, to) && !g.Plain().Hole(o);
        CopiedAt(g.Plain(), image, page, from, to, o);
      }
    }
    ReachedMore(g.Plain(), before, image, page, from, to);
  }

  lemma ReachedMore(g: Geometry, before: seq<byte>, image: seq<byte>, page: seq<byte>, from: nat, to: nat)
    requires from <= to && |page| == to - from && Reached(g, before, from) && |before| <= |image|
    requires Copied(g, image, page, from, to)
    ensures Reached(g, image, to)
  {
    forall o: nat {:trigger g.Hole(o)} | o < to && !g.Hole(o) && !IsPageCount(o) ensures o < |image| {
      if from <= o {
        CopiedAt(g, image, page, from, to, o);
      }
    }
  }

  lemma HoleMatches(g: Geometry, image: seq<byte>, file: seq<byte>, from: nat, to: nat)
    requires from <= to <= |file| && Copied(g, image, file, 0, from) && Reached(g.Plain(), image, from)
    requires forall o :: from <= o < to ==> g.Plain().Hole(o)
    ensures Copied(g, image, file, 0, to) && Reached(g.Plain(), image, to)
  {
    forall o | 0 <= o < to && !g.Hole(o) && !IsPageCount(o) ensures AtOffset(image, file, 0, o) {
      assert !g.Plain().Hole(o);
      CopiedAt(g, image, file, 0, from, o);
    }
  }

  lemma KeptWider(a: seq<byte>, b: seq<byte>, from: nat, to: nat, from': nat, to': nat)
    requires Kept(a, b, from, to) && from' <= from && to <= to'
    ensures Kept(a, b, from', to')
  {
  }

  lemma KeptSlice(a: seq<byte>, b: seq<byte>, from: nat, to: nat, lo: nat, hi: nat)
    requires Kept(a, b, from, to) && lo <= hi <= |a| && (to <= lo || hi <= from)
    ensures b[lo..hi] == a[lo..hi]
  {
  }

  // Changes to pages after the first leave the page count.
  lemma CountStays(before: seq<byte>, image: seq<byte>, i: nat, n: nat, count: seq<byte>)
    requires i >= 2 && n >= 512 && HasCount(before, count) && Kept(before, image, Times(i - 1, n), Times(i, n))
    ensures HasCount(image, count)
  {
    TimesLe(1, i - 1, n);
    KeptSlice(before, image, Times(i - 1, n), Times(i, n), 28, 32);
  }

  lemma KeptTwice(a: seq<byte>, b: seq<byte>, c: seq<byte>, from: nat, to: nat)
    requires Kept(a, b, from, to) && Kept(b, c, from, to)
    ensures Kept(a, c, from, to)
  {
  }

  // With equal page sizes, a finished backup has every source page, except the
  // pending byte page and the stamped fields of page 1.
  lemma PageEqual(b: Backup, i: nat)
    requires b.Valid() && b.Complete() && b.pgszSrc == b.pgszDest && 2 <= i <= b.nSrcPage
    requires i != b.pending / b.pgszSrc + 1
    requires Bytes(Times(i - 1, b.pgszSrc), Times(i - 1, b.pgszSrc) + b.pgszSrc) !! b.loose
    ensures Times(i - 1, b.pgszSrc) + b.pgszSrc <= |b.file| && Times(i - 1, b.pgszSrc) + b.pgszSrc <= |b.dest|
    ensures var start := Times(i - 1, b.pgszSrc);
      b.dest[start..start + b.pgszSrc] == b.file[start..start + b.pgszSrc]
  {
    var n, start := b.pgszSrc, Times(i - 1, b.pgszSrc);
    TimesLe(i, b.nSrcPage, n);
    TimesLe(1, i - 1, n);
    ApartFromPending(b.Geo(), i);
    forall o | start <= o < start + n ensures SameAt(b.dest, b.file, o) {
      assert o in Bytes(start, start + n);
      var byte := b.file[o];
    }
    assert SameAt(b.dest, b.file, start + n - 1);
  }

  lemma ApartFromPending(g: Geometry, i: nat)
    requires g.Valid() && i >= 1 && i != g.pending / g.src + 1
    ensures Times(i - 1, g.src) + g.src <= g.pending || g.pending + g.src <= Times(i - 1, g.src)
  {
    TimesMultiple(i - 1, g.src);
    TimesMultiple(g.pending / g.src, g.src);
    Division.DivMod(g.pending, g.src);
    TimesIs(g.pending / g.src, g.src);
    if Times(i - 1, g.src) < g.pending {
      Gap(Times(i - 1, g.src), g.pending, g.src);
    } else if g.pending < Times(i - 1, g.src) {
      Gap(g.pending, Times(i - 1, g.src), g.src);
    }
  }

  // Anything that can happen to a backup and its source, in any order.
  datatype Event =
    | Stepping(nPage: int, env: Env)
    | BeginWriting
    | Touching(i: nat, data: seq<byte>)
    | Writing(i: nat, data: seq<byte>, env: Env)
    | Freeing(i: nat)
    | Reusing(i: nat)
    | Extending(m: nat)
    | Shrinking(m: nat)
    | EndWriting(commit: bool)
    | Changed(file: seq<byte>, m: nat)

  // What can happen next, with pages of n bytes.
  predicate Possible(s: Source, e: Event, n: nat, pending: nat)
    requires n > 0
  {
    match e
    case Stepping(_, env) => !env.lock.Done? && !env.srcLock.Done?
    case BeginWriting => true
    case Touching(i, data) => s.inWrite && i >= 1 && |data| == n
    case Writing(i, data, _) => s.inWrite && |data| == n && MayWrite(i, n, pending)
    case Freeing(i) => s.inWrite && i >= 1
    case Reusing(i) => s.inWrite && i >= 1
    case Extending(m) => s.inWrite && s.nSrcPage <= m
    case Shrinking(m) => s.inWrite && m <= s.nSrcPage
    case EndWriting(_) => s.inWrite
    case Changed(file, m) => !s.inWrite && |file| == Times(m, n)
  }

  // The source after an event.
  function SourceAfter(s: Source, e: Event, n: nat, pending: nat): Source
    requires n > 0 && Possible(s, e, n, pending)
  {
    match e
    case Stepping(_, _) => s
    case BeginWriting => s.(inWrite := true)
    case Touching(_, _) => s
    case Writing(i, data, _) => s.Write(i, data, n)
    case Freeing(i) => s.Free(i, n)
    case Reusing(i) => s.Reuse(i, n)
    case Extending(m) => s.Extend(m, n)
    case Shrinking(m) => s.Shrink(m, n)
    case EndWriting(commit) => s.End(commit)
    case Changed(file, m) => Source(file, m, false, {}, {}, {})
  }

  // The source after all of them; what is not possible does not happen.
  function SourceRun(s: Source, events: seq<Event>, n: nat, pending: nat): Source
    requires n > 0
  {
    if events == [] then s
    else
      var t, e := SourceRun(s, events[..|events| - 1], n, pending), events[|events| - 1];
      if Possible(t, e, n, pending) then SourceAfter(t, e, n, pending) else t
  }

  // An event of the source itself.
  method Happen(b: Backup, e: Event)
    requires b.Valid() && Possible(b.Src(), e, b.pgszSrc, b.pending) && !e.Stepping?
    modifies b
    ensures b.Valid() && (b.rc == old(b.rc) || b.rc == IOERR) && b.Keeps(old(b.saved), old(b.cookie))
    ensures b.Src() == SourceAfter(old(b.Src()), e, b.pgszSrc, b.pending)
  {
    match e
    case BeginWriting => b.BeginWrite();
    case Touching(i, data) => b.Touch(i, data);
    case Writing(i, data, env) => b.WriteBack(i, data, env);
    case Freeing(i) => b.DontWrite(i);
    case Reusing(i) => b.GetNoContent(i);
    case Extending(m) => b.Extend(m);
    case Shrinking(m) => b.Shrink(m);
    case EndWriting(commit) => b.EndWrite(commit);
    case Changed(file, m) => b.Restart(file, m);
  }

  method Perform(b: Backup, e: Event) returns (done: bool)
    requires b.Valid() && b.rc != Done && Possible(b.Src(), e, b.pgszSrc, b.pending)
    modifies b
    ensures b.Valid() && (done <==> b.rc == Done) && (done ==> b.Complete()) && b.Keeps(old(b.saved), old(b.cookie))
    ensures b.Src() == SourceAfter(old(b.Src()), e, b.pgszSrc, b.pending)
  {
    if e.Stepping? {
      var rc := b.Step(e.nPage, e.env);
      done := rc == Done;
    } else {
      Happen(b, e);
      done := false;
    }
  }

  // Whatever happens before, when a step reports that it is done the
  // destination is the source; until then everything below iNext is in place
  // unless an error ended the backup.  The source is what its own events have
  // made of it.
  method RunBackup(b: Backup, events: seq<Event>) returns (done: bool, ran: nat)
    requires b.Valid() && b.rc == Ok
    modifies b
    ensures b.Valid() && (done <==> b.rc == Done) && (done ==> b.Complete()) && b.Keeps(old(b.saved), old(b.cookie))
    ensures !IsFatal(b.rc) ==> b.InPlace()
    ensures ran <= |events| && (!done ==> ran == |events|)
    ensures b.Src() == SourceRun(old(b.Src()), events[..ran], b.pgszSrc, b.pending)
  {
    ghost var s := b.Src();
    done, ran := false, 0;
    while ran < |events| && !done
      invariant ran <= |events| && b.Valid() && (done <==> b.rc == Done) && (done ==> b.Complete())
      invariant b.Keeps(old(b.saved), old(b.cookie))
      invariant b.Src() == SourceRun(s, events[..ran], b.pgszSrc, b.pending)
    {
      var e := events[ran];
      assert events[..ran + 1][..ran] == events[..ran];
      if Possible(b.Src(), e, b.pgszSrc, b.pending) {
        done := Perform(b, e);
      }
      ran := ran + 1;
    }
    assert events[..|events|] == events;
  }

  method RunAndFinish(b: Backup, events: seq<Event>) returns (done: bool, ran: nat, result: Rc)
    requires b.Valid() && b.rc == Ok
    modifies b
    ensures ran <= |events| && (!done ==> ran == |events|)
    ensures !done ==> b.dest == old(b.saved) && result == b.rc
    ensures done ==> result == Ok && b.Complete() && b.iDestSchema == old(b.cookie)
    ensures b.Src() == SourceRun(old(b.Src()), events[..ran], b.pgszSrc, b.pending)
  {
    done, ran := RunBackup(b, events);
    assert done ==> b.iDestSchema == b.cookie;
    result := b.Finish();
  }

  // A whole backup, from sqlite3_backup_init to sqlite3_backup_finish: unless a
  // step has reported that it is done, the destination is at the end what it was
  // at the beginning.
  method BackUp(pgszSrc: nat, pending: nat, file: seq<byte>, nSrcPage: nat, pgszDest: nat, isWal: bool, isMemdb: bool,
                dest: seq<byte>, cookie: nat, events: seq<Event>)
    returns (b: Backup, done: bool, ran: nat, result: Rc)
    requires Geometry(pgszSrc, pgszDest, pending, {}).Valid() && |file| == Times(nSrcPage, pgszSrc) && cookie < U32
    ensures fresh(b) && ran <= |events| && (!done ==> ran == |events|)
    ensures !done ==> b.dest == dest && result == b.rc
    ensures done ==> result == Ok && b.Complete() && b.iDestSchema == cookie
    ensures b.Src() == SourceRun(Source(file, nSrcPage, false, {}, {}, {}), events[..ran], pgszSrc, pending)
  {
    b := new Backup(pgszSrc, pending, file, nSrcPage, pgszDest, isWal, isMemdb, dest, cookie);
    done, ran, result := RunAndFinish(b, events);
  }

  // No commit leaves freed pages, no rollback pages taken from the free list, and
  // the file grows page by page or past the pending byte page.
  predicate KeepsAll(s: Source, e: Event, n: nat, pending: nat)
    requires n > 0
  {
    match e
    case Writing(i, _, _) => i <= s.nSrcPage + 1 || i == s.nSrcPage + 2 == pending / n + 2
    case Extending(m) => m == s.nSrcPage
    case EndWriting(commit) => (if commit then s.freed else s.reused) == {}
    case _ => true
  }

  predicate RunKeepsAll(s: Source, events: seq<Event>, n: nat, pending: nat)
    requires n > 0
  {
    events == [] ||
    (RunKeepsAll(s, events[..|events| - 1], n, pending) &&
     KeepsAll(SourceRun(s, events[..|events| - 1], n, pending), events[|events| - 1], n, pending))
  }

  // No page is free but perhaps the pending byte page.
  predicate NoneFree(s: Source, n: nat, pending: nat) {
    s.loose <= Bytes(pending, pending + n) && |s.file| == Times(s.nSrcPage, n)
  }

  lemma GrowsPast(s: Source, i: nat, n: nat, pending: nat)
    requires n > 0 && pending % n == 0 && i >= 1 && |s.file| == Times(s.nSrcPage, n)
    requires i <= s.nSrcPage + 1 || i == s.nSrcPage + 2 == pending / n + 2
    ensures Bytes(|s.file|, Times(i - 1, n)) <= Bytes(pending, pending + n)
    ensures Times(i - 1, n) + n == Times(i, n) && Max(|s.file|, Times(i, n)) == Times(Max(s.nSrcPage, i), n)
  {
    if i <= s.nSrcPage + 1 {
      TimesLe(i - 1, s.nSrcPage, n);
    } else {
      Division.DivMod(pending, n);
      TimesIs(pending / n, n);
    }
    if i <= s.nSrcPage {
      TimesLe(i, s.nSrcPage, n);
    } else {
      TimesLe(s.nSrcPage, i, n);
    }
  }

  lemma StaysUnfree(s: Source, e: Event, n: nat, pending: nat)
    requires n > 0 && pending % n == 0 && NoneFree(s, n, pending)
    requires Possible(s, e, n, pending) && KeepsAll(s, e, n, pending)
    ensures NoneFree(SourceAfter(s, e, n, pending), n, pending)
  {
    match e
    case Writing(i, _, _) => GrowsPast(s, i, n, pending);
    case Extending(m) => assert Bytes(|s.file|, Times(m, n)) == {};
    case _ =>
  }

  lemma {:induction false} RunStaysUnfree(s: Source, events: seq<Event>, n: nat, pending: nat)
    requires n > 0 && pending % n == 0 && NoneFree(s, n, pending) && RunKeepsAll(s, events, n, pending)
    ensures NoneFree(SourceRun(s, events, n, pending), n, pending)
  {
    if events != [] {
      var before, e := events[..|events| - 1], events[|events| - 1];
      RunStaysUnfree(s, before, n, pending);
      var t := SourceRun(s, before, n, pending);
      if Possible(t, e, n, pending) {
        StaysUnfree(t, e, n, pending);
      }
    }
  }

  // Then done means equality: the destination has every byte of the source but
  // those of the pending byte page and the stamped fields.  Pages that a
  // rolled-back transaction had freed are no exception.
  lemma UnfreeMeansEqual(b: Backup, s: Source, events: seq<Event>)
    requires b.Valid() && b.Complete() && NoneFree(s, b.pgszSrc, b.pending)
    requires RunKeepsAll(s, events, b.pgszSrc, b.pending) && b.Src() == SourceRun(s, events, b.pgszSrc, b.pending)
    ensures forall o :: 0 <= o < |b.file| && !(b.pending <= o < b.pending + b.pgszSrc) && !IsStamp(o, b.Changed()) ==>
      SameAt(b.dest, b.file, o)
  {
    RunStaysUnfree(s, events, b.pgszSrc, b.pending);
    forall o | 0 <= o < |b.file| && !(b.pending <= o < b.pending + b.pgszSrc) && !IsStamp(o, b.Changed())
      ensures SameAt(b.dest, b.file, o)
    {
      assert o !in b.loose;
      var byte := b.file[o];
    }
  }
}
