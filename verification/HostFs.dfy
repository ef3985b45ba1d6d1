/** Result codes shared by the storage layers. */
module TeeResult {
  datatype TeeResult =
    | Success | Generic | BadParameters | CorruptObject | ShortBuffer
    | MacInvalid | OutOfMemory | ItemNotFound | AccessConflict | BadFormat
}

/** A host file as a byte string, and what a write to it can leave behind. */
module Image {
  import opened Bytes

  type Image = seq<byte>

  /** What `pread(size, offset)` delivers: short at the end of the file, empty past it. */
  function ReadAt(image: Image, offset: nat, size: nat): (data: seq<byte>)
    ensures |data| <= size
  {
    if offset >= |image| then [] else image[offset..Min(offset + size, |image|)]
  }

  /** The file after `data` is written at `offset`; a gap before it reads as zeros. */
  function WriteAt(image: Image, offset: nat, data: seq<byte>): (written: Image)
    ensures data == [] ==> written == image
    ensures data != [] ==> |written| == Max(|image|, offset + |data|)
    ensures forall i | 0 <= i < |written| ::
      written[i] == if offset <= i < offset + |data| then data[i - offset] else At(image, i)
  {
    if data == [] then image else
      seq(Max(|image|, offset + |data|),
          i requires 0 <= i => if offset <= i < offset + |data| then data[i - offset] else At(image, i))
  }

  /** The byte at `i`, zero beyond the end. */
  function At(image: Image, i: nat): byte {
    if i < |image| then image[i] else 0
  }

  /** `torn` is `image` after a write to `[offset, offset+size)` of which anything may have
      reached the disk: arbitrary bytes inside the range, none changed outside it. */
  ghost predicate Torn(image: Image, offset: nat, size: nat, torn: Image) {
    && |image| <= |torn| <= Max(|image|, offset + size)
    && forall i | 0 <= i < |torn| && !(offset <= i < offset + size) :: torn[i] == At(image, i)
  }

  /** A read is not affected by a write whose range it does not meet,
      as long as the bytes read were all there before. */
  lemma ReadOutside(image: Image, offset: nat, size: nat, torn: Image, from: nat, count: nat)
    requires Torn(image, offset, size, torn)
    requires from + count <= |image|
    requires from + count <= offset || offset + size <= from
    ensures ReadAt(torn, from, count) == ReadAt(image, from, count)
  {
  }

  /** Writing two adjacent pieces is writing their concatenation. */
  lemma WriteAdjacent(image: Image, offset: nat, first: seq<byte>, second: seq<byte>)
    ensures WriteAt(WriteAt(image, offset, first), offset + |first|, second) == WriteAt(image, offset, first + second)
  {
    var both := first + second;
    if first == [] || second == [] {
      assert both == if first == [] then second else first;
    } else {
      var once, twice := WriteAt(image, offset, both), WriteAt(WriteAt(image, offset, first), offset + |first|, second);
      assert |once| == |twice|;
      forall i | 0 <= i < |once|
        ensures once[i] == twice[i]
      {
        if offset <= i < offset + |both| {
          assert both[i - offset] == if i < offset + |first| then first[i - offset] else second[i - offset - |first|];
        }
      }
    }
  }

  /** A read returns what was just written there. */
  lemma ReadBack(image: Image, offset: nat, data: seq<byte>)
    requires data != []
    ensures ReadAt(WriteAt(image, offset, data), offset, |data|) == data
  {
  }
}

/** compat/mitee_compat/tee_fs_rpc.c: the host directory, its files, and the transfer loops. */
module HostFs {
  import opened Bytes
  import opened Image
  import opened TeeResult

  const COUNTER_SIZE := 4

  type Inode = int
  type Directory = map<string, Inode>
  type Disk = map<Inode, Image>

  /** One externally visible step of the host file system, with the state before it. */
  datatype Step =
    | Put(dir: Directory, disk: Disk, ino: Inode, offset: nat, data: seq<byte>)
    | Link(dir: Directory, disk: Disk, after: Directory)

  /** The write of the meta counter, which the disk performs whole or not at all. */
  predicate IsCounterWrite(offset: nat, size: nat) {
    offset == 0 && size == COUNTER_SIZE
  }

  /** An image of the written file that a crash during the write may leave. */
  ghost predicate CrashImage(before: Image, offset: nat, data: seq<byte>, image: Image) {
    if IsCounterWrite(offset, |data|)
    then image == before || image == WriteAt(before, offset, data)
    else Torn(before, offset, |data|, image)
  }

  /** A state of the whole file system that a crash during `step` may leave. */
  ghost predicate CrashState(step: Step, dir: Directory, disk: Disk) {
    match step
    case Put(dir0, disk0, ino, offset, data) =>
      && dir == dir0
      && ino in disk0 && ino in disk
      && disk == disk0[ino := disk[ino]]
      && CrashImage(disk0[ino], offset, data, disk[ino])
    case Link(dir0, disk0, after) =>
      && (dir == dir0 || dir == after)
      && disk == disk0
  }

  /** Every name refers to an existing file, and no two names to the same one. */
  ghost predicate WellLinked(dir: Directory, disk: Disk) {
    && (forall name | name in dir :: dir[name] in disk)
    && (forall a, b | a in dir && b in dir && a != b :: dir[a] != dir[b])
  }

  datatype Seen = Visible(image: Image) | Absent

  /** What a name stands for in a state of the file system. */
  function Look(dir: Directory, disk: Disk, name: string): Seen {
    if name in dir && dir[name] in disk then Visible(disk[dir[name]]) else Absent
  }

  /** A crash at any of these steps finds `name` standing for one of `allowed`. */
  ghost predicate NameSafe(steps: seq<Step>, name: string, allowed: set<Seen>) {
    forall k, dir, disk | 0 <= k < |steps| && CrashState(steps[k], dir, disk) :: Look(dir, disk, name) in allowed
  }

  lemma NameSafeConcat(steps: seq<Step>, more: seq<Step>, name: string, allowed: set<Seen>, allowed': set<Seen>)
    requires NameSafe(steps, name, allowed) && NameSafe(more, name, allowed')
    ensures NameSafe(steps + more, name, allowed + allowed')
  {
    forall k, dir, disk | 0 <= k < |steps + more| && CrashState((steps + more)[k], dir, disk)
      ensures Look(dir, disk, name) in allowed + allowed'
    {
      if k < |steps| {
        assert CrashState(steps[k], dir, disk);
      } else {
        assert CrashState(more[k - |steps|], dir, disk);
      }
    }
  }

  /** A change of the directory shows the name as it was before or as it is after. */
  lemma LinkIsNameSafe(step: Step, name: string)
    requires step.Link?
    ensures NameSafe([step], name, {Look(step.dir, step.disk, name), Look(step.after, step.disk, name)})
  {
  }

  class Host {
    var dir: Directory
    var disk: Disk
    ghost var log: seq<Step>
    ghost var faults: nat

    ghost predicate Valid()
      reads this
    {
      WellLinked(dir, disk)
    }

    /** Moves all of `data`, in pieces as small as the host likes, retrying interrupted calls. The counter
        moves in one piece; when that fails it may or may not have reached the disk. */
    method RpcWrite(ino: Inode, data: seq<byte>, offs: nat) returns (res: TeeResult, size: nat)
      requires ino in disk
      modifies this`disk, this`log, this`faults
      ensures size <= |data|
      ensures !IsCounterWrite(offs, |data|) || res == Success ==>
        disk == old(disk)[ino := WriteAt(old(disk[ino]), offs, data[..size])]
      ensures IsCounterWrite(offs, |data|) && res != Success ==>
        disk == old(disk) || disk == old(disk)[ino := WriteAt(old(disk[ino]), offs, data)]
      ensures log == old(log) + [Put(old(dir), old(disk), ino, offs, data)]
      ensures res == Success <==> faults == old(faults)
      ensures res == Success ==> size == |data|
      ensures res != Success ==> faults > old(faults) && res == Generic
    {
      log := log + [Put(dir, disk, ino, offs, data)];
      var seekFails: bool := *;
      if seekFails {
        faults := faults + 1;
        return Generic, 0;
      }
      size := 0;
      var interrupts: nat := *;
      while size < |data|
        invariant size <= |data|
        invariant disk == old(disk)[ino := WriteAt(old(disk[ino]), offs, data[..size])]
        invariant faults == old(faults)
        invariant log == old(log) + [Put(old(dir), old(disk), ino, offs, data)]
        invariant IsCounterWrite(offs, |data|) ==> size == 0 || size == |data|
        decreases |data| - size, interrupts
      {
        var interrupted: bool := *;
        var failed: bool := *;
        if interrupts > 0 && interrupted {
          interrupts := interrupts - 1;
        } else if failed {
          faults := faults + 1;
          // The disk may have performed a counter write that is reported as failed.
          var performed: bool := *;
          if IsCounterWrite(offs, |data|) && performed {
            disk := disk[ino := WriteAt(disk[ino], offs, data)];
          }
          return Generic, size;
        } else {
          var r: nat :| 1 <= r <= |data| - size && (IsCounterWrite(offs, |data|) ==> r == |data| - size);
          WriteAdjacent(old(disk[ino]), offs, data[..size], data[size..size + r]);
          assert data[..size] + data[size..size + r] == data[..size + r];
          disk := disk[ino := WriteAt(disk[ino], offs + size, data[size..size + r])];
          size := size + r;
        }
      }
      assert data[..size] == data;
      return Success, size;
    }

    /** Collects bytes until `size` have arrived or the file ends. */
    method RpcRead(ino: Inode, size: nat, offs: nat) returns (res: TeeResult, data: seq<byte>)
      requires ino in disk
      modifies this`faults
      ensures data <= ReadAt(disk[ino], offs, size)
      ensures res == Success <==> faults == old(faults)
      ensures res == Success ==> data == ReadAt(disk[ino], offs, size)
      ensures res != Success ==> faults > old(faults) && res == Generic
    {
      var file := disk[ino];
      data := [];
      var seekFails: bool := *;
      if seekFails {
        faults := faults + 1;
        return Generic, data;
      }
      var atEnd := false;
      var interrupts: nat := *;
      while !atEnd && |data| < size
        invariant data <= ReadAt(file, offs, size)
        invariant atEnd ==> data == ReadAt(file, offs, size)
        invariant faults == old(faults)
        decreases !atEnd, size - |data|, interrupts
      {
        var interrupted: bool := *;
        var failed: bool := *;
        if interrupts > 0 && interrupted {
          interrupts := interrupts - 1;
        } else if failed {
          faults := faults + 1;
          return Generic, data;
        } else {
          var available := ReadAt(file, offs + |data|, size - |data|);
          if available == [] {
            atEnd := true;
          } else {
            var r: nat :| 1 <= r <= |available|;
            data := data + available[..r];
          }
        }
      }
      return Success, data;
    }

    /** Opens a file, creating an empty one if asked to and there is none.
        An existing file is opened as it is, also when creating. */
    method RpcOpen(name: string, create: bool) returns (res: TeeResult, ino: Inode)
      requires Valid()
      modifies this
      ensures Valid()
      ensures res == Success ==> faults == old(faults) && name in dir && dir[name] == ino && ino in disk
      ensures name in old(dir) || !create || res != Success ==>
        dir == old(dir) && disk == old(disk) && log == old(log)
      ensures name !in old(dir) && create && res == Success ==>
        && ino !in old(disk) && dir == old(dir)[name := ino] && disk == old(disk)[ino := []]
        && log == old(log) + [Link(old(dir), disk, dir)]
      ensures name != "" && (create || name in old(dir)) && faults == old(faults) ==> res == Success
      ensures name != "" && !create && name !in old(dir) && faults == old(faults) ==> res == ItemNotFound
      ensures (name == "" ==> res == BadParameters) && res in {Success, Generic, BadParameters, ItemNotFound}
      ensures faults >= old(faults)
    {
      ino := 0;
      if name == "" {
        return BadParameters, 0;
      }
      var failed: bool := *;
      if failed {
        faults := faults + 1;
        return Generic, 0;
      }
      if name in dir {
        return Success, dir[name];
      }
      if !create {
        return ItemNotFound, 0;
      }
      ino := FreshInode();
      disk := disk[ino := []];
      log := log + [Link(dir, disk, dir[name := ino])];
      dir := dir[name := ino];
      return Success, ino;
    }

    method FreshInode() returns (ino: Inode)
      ensures ino !in disk
    {
      ino := 0;
      ghost var above := disk.Keys;
      while ino in disk
        invariant above <= disk.Keys
        invariant forall k | k in disk :: k >= ino ==> k in above
        decreases above
      {
        above := above - {ino};
        ino := ino + 1;
      }
    }

    /** Gives the file of `oldName` the name `newName`, in one step. */
    method RpcRename(oldName: string, newName: string, overwrite: bool) returns (res: TeeResult)
      requires Valid()
      modifies this
      ensures Valid() && disk == old(disk) && faults >= old(faults)
      ensures res != Success ==> dir == old(dir) && log == old(log)
      ensures res == Success ==>
        && oldName in old(dir) && faults == old(faults) && newName != ""
        && (overwrite || newName !in old(dir))
        && dir == (old(dir) - {oldName})[newName := old(dir)[oldName]]
        && log == old(log) + [Link(old(dir), disk, dir)]
      ensures oldName != "" && newName != "" && !overwrite && newName in old(dir) ==> res == AccessConflict
      ensures res == AccessConflict ==> faults == old(faults)
      ensures res in {Success, Generic, BadParameters, AccessConflict, ItemNotFound}
      ensures oldName != "" && newName != "" && faults == old(faults) && oldName in old(dir) ==>
        res == if !overwrite && newName in old(dir) then AccessConflict else Success
    {
      if oldName == "" || newName == "" {
        return BadParameters;
      }
      if !overwrite && newName in dir {
        return AccessConflict;
      }
      var failed: bool := *;
      if failed {
        faults := faults + 1;
        return Generic;
      }
      if oldName !in dir {
        return ItemNotFound;
      }
      var after := (dir - {oldName})[newName := dir[oldName]];
      log := log + [Link(dir, disk, after)];
      dir := after;
      return Success;
    }

    method RpcRemove(name: string) returns (res: TeeResult)
      requires Valid()
      modifies this
      ensures Valid() && disk == old(disk) && faults >= old(faults)
      ensures res != Success ==> dir == old(dir) && log == old(log)
      ensures res == Success ==> name in old(dir) && dir == old(dir) - {name} && log == old(log) + [Link(old(dir), disk, dir)]
      ensures name != "" && faults == old(faults) ==> name !in dir
      ensures res == if faults > old(faults) then Generic
                     else if name == "" then BadParameters else if name !in old(dir) then ItemNotFound else Success
    {
      if name == "" {
        return BadParameters;
      }
      var failed: bool := *;
      if failed {
        faults := faults + 1;
        return Generic;
      }
      if name !in dir {
        return ItemNotFound;
      }
      log := log + [Link(dir, disk, dir - {name})];
      dir := dir - {name};
      return Success;
    }
  }

  /** Whatever prefix of a write reached the disk before an error is a torn image of it. */
  lemma PrefixIsTorn(before: Image, offset: nat, data: seq<byte>, size: nat)
    requires size <= |data|
    ensures Torn(before, offset, |data|, WriteAt(before, offset, data[..size]))
  {
  }
}
