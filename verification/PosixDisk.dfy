/** The imperative disk layer: one open file (posix_disk.cpp) and the manager that opens a file for
    every operation (posix_disk_manager.cpp). The operating system's directory is a map. */
module PosixDisks {
  import opened Bytes
  import opened FileSpec
  import opened FileRuns

  const TWO_TO_32: nat := 0x1_0000_0000

  /** `unsigned int` arithmetic. */
  function Wrap32(x: int): nat {
    x % TWO_TO_32
  }

  /** The offsets of page c do not wrap. */
  ghost predicate NoWrap(pageSize: nat, c: nat) {
    (c + 1) * pageSize < TWO_TO_32
  }

  lemma OffsetsExact(pageSize: nat, c: nat)
    requires NoWrap(pageSize, c)
    ensures Wrap32(c * pageSize) == c * pageSize && Wrap32(c * pageSize + pageSize) == (c + 1) * pageSize
  {
    PagesDisjoint(pageSize, c, c + 1);
  }

  lemma SumModulo(a: int, b: int, m: nat)
    requires m > 0
    ensures (a % m + b) % m == (a + b) % m
  {
    var q := (a % m + b) / m;
    assert a + b == (a / m + q) * m + (a % m + b) % m;
    DivModUnique(a + b, m, a / m + q, (a % m + b) % m);
  }

  class FileSystem {
    var files: map<string, seq<byte>>

    constructor ()
      ensures files == map[]
    {
      files := map[];
    }
  }

  class PosixDisk {
    const fs: FileSystem
    const filePath: string
    const pageSize: nat
    const maxDiskSize: nat
    var pos: nat

    ghost predicate Valid()
      reads fs
    {
      filePath in fs.files && FileOk(pageSize, maxDiskSize, fs.files[filePath])
    }

    constructor (fs: FileSystem, filePath: string, pageSize: nat, maxDiskSize: nat)
      ensures this.fs == fs && this.filePath == filePath
      ensures this.pageSize == pageSize && this.maxDiskSize == maxDiskSize
    {
      this.fs, this.filePath, this.pageSize, this.maxDiskSize, this.pos := fs, filePath, pageSize, maxDiskSize, 0;
    }

    /** Opening with O_CREAT, after the check that the file exists or does not, as asked. */
    static method Init(fs: FileSystem, path: string, shouldExist: bool, pageSize: nat, maxDiskSize: nat)
      returns (r: Result<PosixDisk, DiskError>)
      modifies fs
      ensures r.Err? ==>
                fs.files == old(fs.files) && shouldExist == (path !in fs.files)
                && r.error == if shouldExist then DiskNotFound else DiskAlreadyExists
      ensures r.Ok? ==>
                && fresh(r.value) && shouldExist == (path in old(fs.files))
                && fs.files == (if shouldExist then old(fs.files) else old(fs.files)[path := []])
                && r.value.fs == fs && r.value.filePath == path
                && r.value.pageSize == pageSize && r.value.maxDiskSize == maxDiskSize
    {
      var exist := path in fs.files;
      if !shouldExist && exist {
        return Err(DiskAlreadyExists);
      }
      if shouldExist && !exist {
        return Err(DiskNotFound);
      }
      if !exist {
        fs.files := fs.files[path := []];
      }
      var disk := new PosixDisk(fs, path, pageSize, maxDiskSize);
      return Ok(disk);
    }

    method GetDiskByteSize() returns (size: nat)
      requires Valid()
      ensures size == |fs.files[filePath]|
    {
      size := |fs.files[filePath]|;
      assert size % pageSize == 0;
    }

    /** The answer of `lseek` is kept in an `int`, where the last 32-bit offset is -1, a failure. */
    function Sought(at: nat): Result<(), DiskError> {
      if at == TWO_TO_32 - 1 then Err(UnknownError) else Ok(())
    }

    method Seek(at: nat) returns (r: Result<(), DiskError>)
      modifies this
      ensures pos == at && r == Sought(at)
    {
      pos := at;
      if at == TWO_TO_32 - 1 {
        return Err(UnknownError);
      }
      return Ok(());
    }

    /** Cuts the file off, or extends it with zeros. */
    method Truncate(newByteSize: nat)
      requires filePath in fs.files
      modifies fs
      ensures fs.files == old(fs.files)[filePath := Resize(old(fs.files[filePath]), newByteSize)]
    {
      var file := fs.files[filePath];
      if newByteSize < |file| {
        fs.files := fs.files[filePath := file[..newByteSize]];
      } else {
        fs.files := fs.files[filePath := file + Zeros(newByteSize - |file|)];
        assert file + Zeros(0) == file;
      }
    }

    /** The 32-bit offset of a page, for any cursor, and the size its file must have. */
    function Offset(c: int): nat {
      Wrap32(c * pageSize)
    }

    function SizeFor(c: int): nat {
      Wrap32(Offset(c) + pageSize)
    }

    /** What an operation on page c answers before it moves any byte. */
    function Prepared(c: int): Result<(), DiskError> {
      if SizeFor(c) >= maxDiskSize then Err(DiskExceedsMaxSize) else Sought(Offset(c))
    }

    /** The file it then finds: within the bound it is grown, even where the seek fails. */
    function Ready(c: int, file: seq<byte>): seq<byte> {
      if SizeFor(c) >= maxDiskSize then file else Grow(file, SizeFor(c))
    }

    /** Check the bound, grow the file to the page's end, and seek to its start. */
    method PrepareRw(c: int) returns (r: Result<(), DiskError>)
      requires Valid()
      modifies this, fs
      ensures r == Prepared(c) && (r.Ok? ==> pos == Offset(c))
      ensures fs.files == old(fs.files)[filePath := Ready(c, old(fs.files[filePath]))]
    {
      assert fs.files == fs.files[filePath := fs.files[filePath]];
      var curByteSize := GetDiskByteSize();
      var foffset := Wrap32(c * pageSize);
      var newByteSize := Wrap32(foffset + pageSize);
      if newByteSize >= maxDiskSize {
        return Err(DiskExceedsMaxSize);
      }
      if newByteSize > curByteSize {
        Truncate(newByteSize);
      }
      r := Seek(foffset);
    }

    /** A write through the operating system extends the file if it must; so where the size has wrapped,
        the file grows to the offset after all. */
    method Write(c: int, data: array<byte>) returns (r: Result<(), DiskError>)
      requires Valid() && data.Length == pageSize
      modifies this, fs
      ensures r == Prepared(c)
      ensures var file := Ready(c, old(fs.files[filePath]));
              fs.files == old(fs.files)[filePath := if r.Err? then file
                                                    else Splice(Grow(file, Offset(c) + pageSize), Offset(c), data[..])]
    {
      var prepared := PrepareRw(c);
      if prepared.Err? {
        return Err(prepared.error);
      }
      var file := Resize(fs.files[filePath], if |fs.files[filePath]| < pos + pageSize then pos + pageSize else |fs.files[filePath]|);
      fs.files := fs.files[filePath := Splice(file, pos, data[..])];
      return Ok(());
    }

    /** The bytes a read at this offset finds, at most a page. */
    function Chunk(file: seq<byte>, at: nat): seq<byte> {
      if at + pageSize <= |file| then file[at..at + pageSize] else if at <= |file| then file[at..] else []
    }

    /** A read past the end of the file is short, and an error; the bytes there are have been stored. */
    method Read(c: int, data: array<byte>) returns (r: Result<(), DiskError>)
      requires Valid() && data.Length == pageSize
      modifies this, fs, data
      ensures var file := Ready(c, old(fs.files[filePath]));
              && fs.files == old(fs.files)[filePath := file]
              && if Prepared(c).Err? then r == Prepared(c) && data[..] == old(data[..])
                 else
                   && data[..] == Splice(old(data[..]), 0, Chunk(file, Offset(c)))
                   && r == if Offset(c) + pageSize <= |file| then Ok(()) else Err(ReadDiskError)
    {
      var prepared := PrepareRw(c);
      if prepared.Err? {
        return Err(prepared.error);
      }
      var chunk := Chunk(fs.files[filePath], pos);
      CopyInto(data, 0, chunk);
      if |chunk| != pageSize {
        return Err(ReadDiskError);
      }
      return Ok(());
    }

    /** In numbers, for any cursor: the bound is checked on the page's end modulo 2^32, and the seek fails
        on the one start that is all ones. */
    lemma PreparedIff(c: int, file: seq<byte>)
      ensures Offset(c) == c * pageSize % 0x1_0000_0000 && SizeFor(c) == (c + 1) * pageSize % 0x1_0000_0000
      ensures Prepared(c) == if (c + 1) * pageSize % 0x1_0000_0000 >= maxDiskSize then Err(DiskExceedsMaxSize)
                             else if c * pageSize % 0x1_0000_0000 == 0xFFFF_FFFF then Err(UnknownError)
                             else Ok(())
      ensures Ready(c, file) == if (c + 1) * pageSize % 0x1_0000_0000 >= maxDiskSize then file
                                else Grow(file, (c + 1) * pageSize % 0x1_0000_0000)
    {
      SumModulo(c * pageSize, pageSize, 0x1_0000_0000);
      assert (c + 1) * pageSize == c * pageSize + pageSize;
    }

    /** A read finds the bytes from its offset on, a page of them or as many as there are. */
    lemma ChunkBytes(file: seq<byte>, at: nat, j: nat)
      ensures |Chunk(file, at)| == if |file| <= at then 0 else if |file| - at < pageSize then |file| - at else pageSize
      ensures j < |Chunk(file, at)| ==> Chunk(file, at)[j] == file[at + j]
    {
    }

    /** Where nothing wraps the two are the page operations on the file, and no read is short. */
    lemma PageOperations(c: nat, file: seq<byte>, data: Page)
      requires NoWrap(pageSize, c) && FileOk(pageSize, maxDiskSize, file) && |data| == pageSize
      ensures var ready, at := Ready(c, file), Offset(c);
              && (Prepared(c).Ok? ==> |Chunk(ready, at)| == pageSize && at + pageSize <= |ready|)
              && ReadFile(pageSize, maxDiskSize, file, c)
                 == (ready, if Prepared(c).Err? then Err(Prepared(c).error) else Ok(Chunk(ready, at)))
              && WriteFile(pageSize, maxDiskSize, file, c, data)
                 == (if Prepared(c).Err? then ready else Splice(Grow(ready, at + pageSize), at, data), Prepared(c))
    {
      OffsetsExact(pageSize, c);
      PagesDisjoint(pageSize, c, c + 1);
    }

    method Unlink()
      requires Valid()
      modifies fs
      ensures fs.files == old(fs.files) - {filePath}
    {
      fs.files := fs.files - {filePath};
    }
  }
}

module PosixDiskManagers {
  import opened Bytes
  import opened FileRuns
  import opened StoreSpec
  import opened PosixDisks

  class PosixDiskManager {
    const fs: FileSystem
    const pageSize: nat
    const maxDiskByteSize: nat
    var disks: map<int, string>
    var curDiskId: int

    ghost function Abs(): Store
      reads this, fs
    {
      Store(pageSize, maxDiskByteSize, disks, curDiskId, fs.files)
    }

    ghost predicate Valid()
      reads this, fs
    {
      StoreOk(Abs())
    }

    constructor (fs: FileSystem, pageSize: nat, maxDiskByteSize: nat)
      requires 0 < pageSize && 0 < maxDiskByteSize
      requires forall name :: name in fs.files ==> FileOk(pageSize, maxDiskByteSize, fs.files[name])
      ensures Valid() && Abs() == Store(pageSize, maxDiskByteSize, map[], 0, fs.files) && this.fs == fs
    {
      this.fs, this.pageSize, this.maxDiskByteSize := fs, pageSize, maxDiskByteSize;
      this.disks, this.curDiskId := map[], 0;
    }

    method LoadedDiskName(id: int) returns (r: Result<string, DiskError>)
      ensures r == if id in disks then Ok(disks[id]) else Err(DiskNotFound)
    {
      if id !in disks {
        return Err(DiskNotFound);
      }
      return Ok(disks[id]);
    }

    method Create(prefix: string) returns (r: Result<int, DiskError>)
      requires Valid()
      modifies this, fs
      ensures Valid() && (Abs(), r) == StoreSpec.Create(old(Abs()), prefix)
    {
      var disk := PosixDisk.Init(fs, FullName(prefix), false, pageSize, maxDiskByteSize);
      if disk.Err? {
        return Err(disk.error);
      }
      assert FileOk(pageSize, maxDiskByteSize, []);
      r := Load(prefix);
    }

    method Load(prefix: string) returns (r: Result<int, DiskError>)
      requires Valid()
      modifies this, fs
      ensures Valid() && (Abs(), r) == StoreSpec.Load(old(Abs()), prefix)
    {
      var disk := PosixDisk.Init(fs, FullName(prefix), true, pageSize, maxDiskByteSize);
      if disk.Err? {
        return Err(disk.error);
      }
      var ret := curDiskId;
      disks := disks[ret := FullName(prefix)];
      curDiskId := curDiskId + 1;
      return Ok(ret);
    }

    method Unload(id: int) returns (r: Result<(), DiskError>)
      requires Valid()
      modifies this
      ensures Valid() && (Abs(), r) == StoreSpec.Unload(old(Abs()), id)
    {
      if id !in disks {
        return Err(DiskNotFound);
      }
      disks := disks - {id};
      return Ok(());
    }

    method Destroy(id: int) returns (r: Result<(), DiskError>)
      requires Valid()
      modifies this, fs
      ensures Valid() && (Abs(), r) == StoreSpec.Destroy(old(Abs()), id)
    {
      var name := LoadedDiskName(id);
      if name.Err? {
        return Err(name.error);
      }
      var disk := PosixDisk.Init(fs, name.value, true, pageSize, maxDiskByteSize);
      if disk.Err? {
        return Err(disk.error);
      }
      disk.value.Unlink();
      r := Unload(id);
    }

    method Write(id: int, c: nat, bytes: array<byte>) returns (r: Result<(), DiskError>)
      requires Valid() && bytes.Length == pageSize && NoWrap(pageSize, c)
      modifies fs
      ensures Valid() && (Abs(), r) == WritePage(old(Abs()), id, c, bytes[..])
    {
      var name := LoadedDiskName(id);
      if name.Err? {
        return Err(name.error);
      }
      var disk := PosixDisk.Init(fs, name.value, true, pageSize, maxDiskByteSize);
      if disk.Err? {
        return Err(disk.error);
      }
      WriteFileUpdates(pageSize, maxDiskByteSize, fs.files[name.value], c, bytes[..], c);
      disk.value.PageOperations(c, fs.files[name.value], bytes[..]);
      assert fs.files[name.value := fs.files[name.value]] == fs.files;
      r := disk.value.Write(c, bytes);
    }

    method Read(id: int, c: nat, bytes: array<byte>) returns (r: Result<(), DiskError>)
      requires Valid() && bytes.Length == pageSize && NoWrap(pageSize, c)
      modifies fs, bytes
      ensures Valid()
      ensures var (after, answer) := ReadPage(old(Abs()), id, c);
              && Abs() == after
              && match answer
                 case Ok(page) => r == Ok(()) && bytes[..] == page
                 case Err(e) => r == Err(e) && bytes[..] == old(bytes[..])
    {
      var name := LoadedDiskName(id);
      if name.Err? {
        return Err(name.error);
      }
      var disk := PosixDisk.Init(fs, name.value, true, pageSize, maxDiskByteSize);
      if disk.Err? {
        return Err(disk.error);
      }
      ReadFileKeeps(pageSize, maxDiskByteSize, fs.files[name.value], c, c);
      disk.value.PageOperations(c, fs.files[name.value], bytes[..]);
      r := disk.value.Read(c, bytes);
    }

    method DiskByteSize(id: int) returns (r: Result<nat, DiskError>)
      requires Valid()
      modifies fs
      ensures fs.files == old(fs.files)
      ensures match Resolve(Abs(), id)
              case Ok(name) => r == Ok(|fs.files[name]|)
              case Err(e) => r == Err(e)
    {
      var name := LoadedDiskName(id);
      if name.Err? {
        return Err(name.error);
      }
      var disk := PosixDisk.Init(fs, name.value, true, pageSize, maxDiskByteSize);
      if disk.Err? {
        return Err(disk.error);
      }
      var size := disk.value.GetDiskByteSize();
      return Ok(size);
    }

    method Extend(id: int) returns (r: Result<int, DiskError>)
      requires Valid()
      modifies fs
      ensures fs.files == old(fs.files) && r == StoreSpec.Extend(Abs(), id)
    {
      var size := DiskByteSize(id);
      if size.Err? {
        return Err(size.error);
      }
      if size.value > maxDiskByteSize {
        return Err(DiskExceedsMaxSize);
      }
      return Ok(size.value / pageSize + 1);
    }
  }
}
