/** File metadata as the index and the local database hold it. */
module FileTypes {
  import opened Versions

  datatype Option<T> = None | Some(value: T)

  datatype Result<T> = Ok(value: T) | Err(error: string)

  datatype FileType = File | Directory | Symlink

  datatype BlockInfo = BlockInfo(size: int, hash: seq<nat>, offset: int)

  datatype FileInfo = FileInfo(
    name: string,
    fileType: FileType,
    size: int,
    permissions: nat,
    modifiedS: int,
    modifiedNs: int,
    version: Vector,
    sequence: nat,
    blocks: seq<BlockInfo>,
    deleted: Option<bool>)
  {
    predicate IsDeleted() {
      deleted == Some(true)
    }
  }

  /** One folder's entries by name. */
  type Files = map<string, FileInfo>

  ghost predicate Keyed(db: Files) {
    forall n :: n in db ==> db[n].name == n
  }

  /** The entries of a folder, each exactly once, in some order. */
  ghost predicate Lists(index: seq<FileInfo>, db: Files) {
    && (forall f :: f in index ==> f.name in db && db[f.name] == f)
    && (forall n :: n in db ==> db[n] in index)
    && (forall i, j :: 0 <= i < j < |index| ==> index[i].name != index[j].name)
  }

  /** The folder after the entries have been stored in order. */
  function StoreAll(m: Files, files: seq<FileInfo>): Files
    decreases |files|
  {
    if files == [] then m else StoreAll(m[files[0].name := files[0]], files[1..])
  }
}
