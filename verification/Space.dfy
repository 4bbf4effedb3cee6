/** `cpmStatFS`: free and used blocks add up, and used blocks are what the files point to. */
module Space {
  import opened Geometry
  import opened Directory
  import opened Volume
  import opened Invariant
  import opened Xfcbs

  /** Allocated blocks among the first `n`, directory included. */
  function CountSet(alv: seq<bool>, n: nat): (r: nat)
    requires n <= |alv|
    ensures r <= n
  {
    if n == 0 then 0 else CountSet(alv, n - 1) + if alv[n - 1] then 1 else 0
  }

  /** `f_bused` and `f_bfree`. */
  function Bused(g: Geometry, alv: seq<bool>): int
    requires g.size <= |alv|
  {
    CountSet(alv, g.size) - g.dirblks
  }

  function Bfree(g: Geometry, alv: seq<bool>): nat
    requires g.size <= |alv|
  {
    g.size - CountSet(alv, g.size)
  }

  /** Unused entries among the first `n`; `f_ffree` counts them all. */
  function CountUnused(dir: seq<DirEntry>, n: nat): nat
    requires n <= |dir|
  {
    if n == 0 then 0 else CountUnused(dir, n - 1) + if dir[n - 1].status == UNUSED then 1 else 0
  }

  /** Nonzero pointers in the first `k` slots of an entry. */
  function EntryPointers(g: Geometry, e: DirEntry, k: nat): nat
    requires k <= PointersPerEntry(g)
  {
    if k == 0 then 0 else EntryPointers(g, e, k - 1) + if LivePtr(g, e, k - 1) != 0 then 1 else 0
  }

  /** Nonzero pointers in the first `n` entries; with `f`, only those of file `f`. */
  function TotalPointers(g: Geometry, dir: seq<DirEntry>, n: nat): nat
    requires n <= |dir|
  {
    if n == 0 then 0 else TotalPointers(g, dir, n - 1) + EntryPointers(g, dir[n - 1], PointersPerEntry(g))
  }

  function FilePointers(g: Geometry, dir: seq<DirEntry>, f: Key, n: nat): nat
    requires n <= |dir|
  {
    if n == 0 then 0
    else FilePointers(g, dir, f, n - 1) + if KeyOf(dir[n - 1]) == f
      then EntryPointers(g, dir[n - 1], PointersPerEntry(g)) else 0
  }

  // ----- counting as sets ---------------------------------------------------------------------------

  ghost function SetBits(alv: seq<bool>, n: nat): set<nat>
    requires n <= |alv|
  {
    set b: nat | b < n && alv[b]
  }

  lemma {:induction false} CountIsCardinality(alv: seq<bool>, n: nat)
    requires n <= |alv|
    ensures CountSet(alv, n) == |SetBits(alv, n)|
  {
    if n > 0 {
      CountIsCardinality(alv, n - 1);
      if alv[n - 1] {
        assert SetBits(alv, n) == SetBits(alv, n - 1) + {n - 1};
      } else {
        assert SetBits(alv, n) == SetBits(alv, n - 1);
      }
    }
  }

  ghost function UnusedEntries(dir: seq<DirEntry>, n: nat): set<nat>
    requires n <= |dir|
  {
    set i: nat | i < n && dir[i].status == UNUSED
  }

  /** The free directory entries reported are those that are unused. */
  lemma {:induction false} FreeEntries(dir: seq<DirEntry>, n: nat)
    requires n <= |dir|
    ensures CountUnused(dir, n) == |UnusedEntries(dir, n)|
  {
    if n > 0 {
      FreeEntries(dir, n - 1);
      if dir[n - 1].status == UNUSED {
        assert UnusedEntries(dir, n) == UnusedEntries(dir, n - 1) + {n - 1};
      } else {
        assert UnusedEntries(dir, n) == UnusedEntries(dir, n - 1);
      }
    }
  }

  ghost function EntryBlocks(g: Geometry, e: DirEntry, k: nat): set<nat>
    requires k <= PointersPerEntry(g)
  {
    set j: nat | j < k && LivePtr(g, e, j) != 0 :: LivePtr(g, e, j)
  }

  ghost function DirBlocks(g: Geometry, dir: seq<DirEntry>, n: nat): set<nat>
    requires n <= |dir|
  {
    if n == 0 then {} else DirBlocks(g, dir, n - 1) + EntryBlocks(g, dir[n - 1], PointersPerEntry(g))
  }

  lemma {:induction false} InDirBlocks(g: Geometry, dir: seq<DirEntry>, n: nat, b: nat)
    requires n <= |dir|
    ensures b in DirBlocks(g, dir, n) <==>
      exists i: nat, j: nat :: i < n && j < PointersPerEntry(g) && LivePtr(g, dir[i], j) != 0 &&
        LivePtr(g, dir[i], j) == b
  {
    hide LivePtr, PointersPerEntry;
    if n > 0 {
      InDirBlocks(g, dir, n - 1, b);
    }
  }

  lemma {:induction false} EntryCardinality(g: Geometry, dir: seq<DirEntry>, i: nat, k: nat)
    requires i < |dir| && NoSharing(g, dir) && k <= PointersPerEntry(g)
    ensures |EntryBlocks(g, dir[i], k)| == EntryPointers(g, dir[i], k)
  {
    hide LivePtr, PointersPerEntry, NoSharing;
    if k > 0 {
      EntryCardinality(g, dir, i, k - 1);
      var b := LivePtr(g, dir[i], k - 1);
      if b != 0 {
        NotBefore(g, dir, i, k - 1);
        assert EntryBlocks(g, dir[i], k) == EntryBlocks(g, dir[i], k - 1) + {b};
      } else {
        assert EntryBlocks(g, dir[i], k) == EntryBlocks(g, dir[i], k - 1);
      }
    }
  }

  lemma NotBefore(g: Geometry, dir: seq<DirEntry>, i: nat, k: nat)
    requires i < |dir| && NoSharing(g, dir) && k < PointersPerEntry(g) && LivePtr(g, dir[i], k) != 0
    ensures LivePtr(g, dir[i], k) !in EntryBlocks(g, dir[i], k)
  {
    hide LivePtr, PointersPerEntry;
  }

  /** The blocks of an entry are in no earlier entry. */
  lemma EntryDisjoint(g: Geometry, dir: seq<DirEntry>, n: nat)
    requires n < |dir| && NoSharing(g, dir)
    ensures DirBlocks(g, dir, n) !! EntryBlocks(g, dir[n], PointersPerEntry(g))
  {
    hide LivePtr, PointersPerEntry, DirBlocks;
    forall b | b in EntryBlocks(g, dir[n], PointersPerEntry(g)) ensures b !in DirBlocks(g, dir, n) {
      InDirBlocks(g, dir, n, b);
    }
  }

  lemma {:induction false} DirCardinality(g: Geometry, dir: seq<DirEntry>, n: nat)
    requires n <= |dir| && NoSharing(g, dir)
    ensures |DirBlocks(g, dir, n)| == TotalPointers(g, dir, n)
  {
    hide LivePtr, PointersPerEntry, EntryBlocks, NoSharing;
    if n > 0 {
      DirCardinality(g, dir, n - 1);
      EntryCardinality(g, dir, n - 1, PointersPerEntry(g));
      EntryDisjoint(g, dir, n - 1);
    }
  }

  ghost function Below(n: nat): (r: set<nat>)
    ensures |r| == n && forall b: nat :: b in r <==> b < n
  {
    if n == 0 then {} else Below(n - 1) + {n - 1}
  }

  /** With no shared blocks, the blocks in use are exactly the files' pointers. */
  lemma UsedIsPointers(g: Geometry, v: Volume)
    requires Consistent(g, v) && g.size <= |v.alv|
    ensures Bused(g, v.alv) == TotalPointers(g, v.dir, |v.dir|)
    ensures Bfree(g, v.alv) + Bused(g, v.alv) + g.dirblks == g.size
  {
    hide ValidGeometry, LivePtr, NoSharing, UniqueExtents, WellSized, BlocksPerExtent;
    ValidSize(g);
    CountIsCardinality(v.alv, g.size);
    DirCardinality(g, v.dir, |v.dir|);
    var reserved, files := Below(g.dirblks), DirBlocks(g, v.dir, |v.dir|);
    forall b | b in files ensures b !in reserved {
      InDirBlocks(g, v.dir, |v.dir|, b);
    }
    assert SetBits(v.alv, g.size) == reserved + files by {
      forall b: nat ensures b in SetBits(v.alv, g.size) <==> b in reserved + files {
        UsedBit(g, v, b);
      }
    }
  }

  lemma UsedBit(g: Geometry, v: Volume, b: nat)
    requires Consistent(g, v) && g.size <= |v.alv|
    ensures b < g.size && v.alv[b] <==> b < g.dirblks || b in DirBlocks(g, v.dir, |v.dir|)
  {
    hide ValidGeometry, LivePtr, NoSharing, UniqueExtents, WellSized, BlocksPerExtent;
    ValidSize(g);
    InDirBlocks(g, v.dir, |v.dir|, b);
    if b in DirBlocks(g, v.dir, |v.dir|) {
      var i: nat, j: nat :| i < |v.dir| && j < PointersPerEntry(g) && LivePtr(g, v.dir[i], j) != 0 &&
        LivePtr(g, v.dir[i], j) == b;
      assert Referenced(g, v.dir, b);
    }
  }

  // ----- unlink -----------------------------------------------------------------------------------------

  lemma {:induction false} UnlinkedTotal(g: Geometry, dir: seq<DirEntry>, f: Key, n: nat)
    requires ValidGeometry(g) && n <= |dir|
    ensures TotalPointers(g, UnlinkedDir(g, dir, f), n) + FilePointers(g, dir, f, n) == TotalPointers(g, dir, n)
  {
    hide ValidGeometry, LivePtr, KeyOf, UnlinkedDir;
    UnlinkedEntries(g, dir, f);
    if n > 0 {
      UnlinkedTotal(g, dir, f, n - 1);
      UnlinkedEntryPointers(g, dir, f, n - 1, PointersPerEntry(g));
    }
  }

  lemma {:induction false} UnlinkedEntryPointers(g: Geometry, dir: seq<DirEntry>, f: Key, i: nat, k: nat)
    requires ValidGeometry(g) && i < |dir| && k <= PointersPerEntry(g)
    ensures EntryPointers(g, UnlinkedDir(g, dir, f)[i], k) == if KeyOf(dir[i]) == f then 0
      else EntryPointers(g, dir[i], k)
  {
    hide ValidGeometry, KeyOf, UnlinkedDir, Ptr;
    UnlinkedEntries(g, dir, f);
    if k > 0 {
      UnlinkedEntryPointers(g, dir, f, i, k - 1);
    }
  }

  lemma EntriesFree(g: Geometry, v: Volume, f: Key)
    requires Consistent(g, v) && Unlink(g, v, f).Done? && g.size <= |v.alv|
    ensures var w := Unlink(g, v, f).vol;
      g.size <= |w.alv| && Bfree(g, w.alv) == Bfree(g, v.alv) + FilePointers(g, v.dir, f, |v.dir|)
  {
    hide ValidGeometry, NoSharing, PointersOk, UniqueExtents, WellSized, KeyOf, Used;
    UnlinkConsistent(g, v, f);
    UsedIsPointers(g, v);
    UsedIsPointers(g, Unlink(g, v, f).vol);
    UnlinkedTotal(g, v.dir, f, |v.dir|);
  }

  lemma {:induction false} OtherPointersStay(g: Geometry, dir: seq<DirEntry>, f: Key, h: Key, n: nat)
    requires ValidGeometry(g) && n <= |dir| && h != f
    ensures FilePointers(g, UnlinkedDir(g, dir, f), h, n) == FilePointers(g, dir, h, n)
  {
    hide ValidGeometry, EntryPointers;
    if n > 0 {
      OtherPointersStay(g, dir, f, h, n - 1);
      UnlinkedEntryPointers(g, dir, f, n - 1, PointersPerEntry(g));
      if !Live(g, dir[n - 1]) || KeyOf(dir[n - 1]) != h {
        NotLivePointsNowhere(g, UnlinkedDir(g, dir, f)[n - 1], PointersPerEntry(g));
      }
    }
  }

  lemma {:induction false} NotLivePointsNowhere(g: Geometry, e: DirEntry, k: nat)
    requires k <= PointersPerEntry(g)
    ensures !Live(g, e) ==> EntryPointers(g, e, k) == 0
  {
    hide Ptr;
    if k > 0 {
      NotLivePointsNowhere(g, e, k - 1);
    }
  }

  lemma {:induction false} NoFileNoPointers(g: Geometry, dir: seq<DirEntry>, f: Key, n: nat)
    requires ValidGeometry(g) && n <= |dir| && FindFileExtent(g, dir, f, 0, -1) == -1
    ensures FilePointers(g, dir, f, n) == 0
  {
    hide ValidGeometry, KeyOf, EntryPointers;
    if n > 0 {
      NoFileNoPointers(g, dir, f, n - 1);
      NotLivePointsNowhere(g, dir[n - 1], PointersPerEntry(g));
    }
  }

  /** Unlinking a file frees exactly its blocks, and those of what is taken for its XFCB. */
  lemma UnlinkFrees(g: Geometry, v: Volume, f: Key)
    requires Consistent(g, v) && UnlinkAll(g, v, f).Done? && XfcbAlone(g, v.dir, f) && g.size <= |v.alv|
    ensures var w := UnlinkAll(g, v, f).vol;
      && g.size <= |w.alv|
      && Bfree(g, w.alv) == Bfree(g, v.alv) + FilePointers(g, v.dir, f, |v.dir|) +
           if g.os.hasXfcbs then FilePointers(g, v.dir, Twin(f), |v.dir|) else 0
  {
    hide ValidGeometry, NoSharing, PointersOk, UniqueExtents, WellSized, KeyOf, AlvOf, UnlinkedDir, FindFileExtent,
         XfcbAlone, DropXfcb, Bfree, FilePointers, Twin;
    UnlinkIsTwo(g, v, f);
    UnlinkConsistent(g, v, f);
    EntriesFree(g, v, f);
    var w := Unlink(g, v, f).vol;
    if g.os.hasXfcbs {
      TwinDiffers(f);
      OtherPointersStay(g, v.dir, f, Twin(f), |v.dir|);
      if Unlink(g, w, Twin(f)).Done? {
        EntriesFree(g, w, Twin(f));
      } else {
        NoFileNoPointers(g, w.dir, Twin(f), |w.dir|);
      }
    }
  }
}
