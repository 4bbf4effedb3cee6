/** Which directory entries and blocks a write takes, and what it leaves of the entries that were there. */
module Allocation {
  import opened Wrappers
  import opened Geometry
  import opened Directory
  import opened Volume
  import opened Invariant

  /** User number, name and extension agree, attribute bits included. */
  predicate SameName(e: DirEntry, e': DirEntry) {
    e'.status == e.status && e'.name == e.name && e'.ext == e.ext
  }

  /** An entry stays as it was, or goes on naming the same file with the same attributes, or was the first unused one
      and now names the file of `like` with its attributes. */
  ghost predicate Extends(g: Geometry, like: DirEntry, dir: seq<DirEntry>, dir': seq<DirEntry>) {
    |dir'| == |dir| &&
    forall i :: 0 <= i < |dir| && dir'[i] != dir[i] ==>
      || (Live(g, dir[i]) && KeyOf(dir[i]) == KeyOf(like) && SameName(dir[i], dir'[i]))
      || (dir[i].status == UNUSED && SameName(like, dir'[i]) && forall j :: 0 <= j < i ==> dir'[j].status != UNUSED)
  }

  /** Blocks are taken from below: none is free in front of one that was taken. */
  predicate TakenFromBelow(alv: seq<bool>, alv': seq<bool>) {
    && |alv'| == |alv| && (forall b :: 0 <= b < |alv| && alv[b] ==> alv'[b])
    && forall b, c :: 0 <= c < b < |alv| && !alv[b] && alv'[b] ==> alv'[c]
  }

  lemma ExtendsTransitive(g: Geometry, like: DirEntry, like': DirEntry, u: seq<DirEntry>, v: seq<DirEntry>,
                          w: seq<DirEntry>)
    requires Live(g, like) && SameName(like, like') && Extends(g, like, u, v) && Extends(g, like', v, w)
    ensures Extends(g, like, u, w)
  {
    SameNameSameKey(like, like');
    forall i | 0 <= i < |u| && w[i] != u[i]
      ensures || (Live(g, u[i]) && KeyOf(u[i]) == KeyOf(like) && SameName(u[i], w[i]))
              || (u[i].status == UNUSED && SameName(like, w[i]) && forall j :: 0 <= j < i ==> w[j].status != UNUSED)
    {
      SameNameSameKey(u[i], v[i]);
      SameNameSameKey(like, v[i]);
    }
  }

  lemma SameNameSameKey(e: DirEntry, e': DirEntry)
    ensures SameName(e, e') ==> KeyOf(e') == KeyOf(e)
  {}

  lemma NothingTaken(g: Geometry, like: DirEntry, v: Volume)
    ensures Extends(g, like, v.dir, v.dir) && TakenFromBelow(v.alv, v.alv)
  {}

  lemma OpenedTakes(g: Geometry, v: Volume, ino: nat, pos: nat, cursor: Option<Cursor>)
    requires ValidGeometry(g) && ino < |v.dir| && Live(g, v.dir[ino])
    ensures var o := Opened(g, v, ino, pos, cursor);
      o.Some? ==>
        && Extends(g, v.dir[ino], v.dir, o.value.0.dir) && TakenFromBelow(v.alv, o.value.0.alv)
        && o.value.0.dir[ino] == v.dir[ino]
  {
    hide ValidGeometry, KeyOf, FindFileExtent;
  }

  lemma BlockTakes(g: Geometry, v: Volume, c: Cursor, pos: nat, data: seq<byte>, buffer: seq<byte>)
    requires Mounted(g, v) && c.extent < |v.dir| && Live(g, v.dir[c.extent]) && |buffer| == LOGICAL_EXTENT && 0 < |data|
    ensures var v' := BlockPass(g, v, c, pos, data, buffer).vol;
      && |v'.dir| == |v.dir| && TakenFromBelow(v.alv, v'.alv) && SameName(v.dir[c.extent], v'.dir[c.extent])
      && forall i :: 0 <= i < |v.dir| && i != c.extent ==> v'.dir[i] == v.dir[i]
  {
    hide ValidGeometry, PointersInRange, KeyOf, StoreInBlock, Offset, Ptr, AdvancedExtentNumber;
    if OpenBlock(g, v, c.extent, Slot(g, pos)).Some? {
      OpenBlockMounted(g, v, c.extent, Slot(g, pos));
      var (v', b, isNew) := OpenBlock(g, v, c.extent, Slot(g, pos)).value;
      StorePassMounted(g, v', c, b, isNew, pos, data[..PassLength(g, pos, |data|)], buffer);
    }
  }

  lemma PassTakes(g: Geometry, v: Volume, ino: nat, pos: nat, cursor: Option<Cursor>, data: seq<byte>,
                  buffer: seq<byte>)
    requires WriteState(g, v, ino, pos, cursor, |data|, buffer) && Writable(g, v, ino, cursor, buffer) && 0 < |data|
    ensures var v' := WritePass(g, v, ino, pos, cursor, data, buffer).vol;
      && Extends(g, v.dir[ino], v.dir, v'.dir) && TakenFromBelow(v.alv, v'.alv) && ino < |v'.dir|
      && SameName(v.dir[ino], v'.dir[ino])
  {
    hide ValidGeometry, Consistent, CursorOk, CursorFits, WellSized, PointersInRange, KeyOf, Live, BlockPass, Opened,
         Extends, TakenFromBelow;
    NothingTaken(g, v.dir[ino], v);
    OpenedTakes(g, v, ino, pos, cursor);
    if Opened(g, v, ino, pos, cursor).Some? {
      OpenedConsistent(g, v, ino, pos, cursor);
      var (v1, c) := Opened(g, v, ino, pos, cursor).value;
      ConsistentIsMounted(g, v1);
      CursorEntry(g, v1, ino, pos, c);
      BlockTakes(g, v1, c, pos, data, buffer);
      var v2 := BlockPass(g, v1, c, pos, data, buffer).vol;
      SameKeyExtends(g, v1.dir[c.extent], v1.dir[ino], v1.dir, v2.dir, c.extent);
      ExtendsTransitive(g, v.dir[ino], v1.dir[ino], v.dir, v1.dir, v2.dir);
      TakenTransitive(v.alv, v1.alv, v2.alv);
    }
  }

  lemma SameKeyExtends(g: Geometry, like: DirEntry, like': DirEntry, dir: seq<DirEntry>, dir': seq<DirEntry>, i: nat)
    requires i < |dir| == |dir'| && like == dir[i] && Live(g, like) && KeyOf(like) == KeyOf(like')
    requires SameName(like, dir'[i]) && forall j :: 0 <= j < |dir| && j != i ==> dir'[j] == dir[j]
    ensures Extends(g, like', dir, dir')
  {
    hide KeyOf, Live;
  }

  lemma TakenTransitive(u: seq<bool>, v: seq<bool>, w: seq<bool>)
    requires TakenFromBelow(u, v) && TakenFromBelow(v, w)
    ensures TakenFromBelow(u, w)
  {}

  /** A write takes the first unused entries and the lowest free blocks; new entries carry the attributes of the
      inode's entry, old ones keep theirs, and entries of other files stay as they are. */
  lemma {:induction false} WriteTakes(g: Geometry, v: Volume, ino: nat, pos: nat, cursor: Option<Cursor>,
                                      data: seq<byte>, buffer: seq<byte>)
    requires WriteState(g, v, ino, pos, cursor, |data|, buffer) && Writable(g, v, ino, cursor, buffer)
    ensures var v' := Write(g, v, ino, pos, cursor, data, buffer).vol;
      && Extends(g, v.dir[ino], v.dir, v'.dir) && TakenFromBelow(v.alv, v'.alv) && ino < |v'.dir|
      && SameName(v.dir[ino], v'.dir[ino])
    decreases |data|
  {
    hide ValidGeometry, Consistent, CursorOk, CursorFits, Mounted, KeyOf, Live, WritePass, Extends, TakenFromBelow;
    if |data| == 0 {
      NothingTaken(g, v.dir[ino], v);
    } else {
      WritePassConsistent(g, v, ino, pos, cursor, data, buffer);
      PassTakes(g, v, ino, pos, cursor, data, buffer);
      var step := WritePass(g, v, ino, pos, cursor, data, buffer);
      if step.Stored? {
        WriteTakes(g, step.vol, ino, pos + step.n, step.cursor, data[step.n..], step.buffer);
        var w := Write(g, v, ino, pos, cursor, data, buffer).vol;
        ExtendsTransitive(g, v.dir[ino], step.vol.dir[ino], v.dir, step.vol.dir, w.dir);
        TakenTransitive(v.alv, step.vol.alv, w.alv);
      }
    }
  }
}
