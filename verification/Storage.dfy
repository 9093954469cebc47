/** storage/: the file store, a map from file name (a CID) to contents that only
    grows. Any call may fail; a save is atomic. */
module Storage {
  import opened Results

  newtype byte = b: int | 0 <= b < 256

  type Bytes = seq<byte>

  type Files = map<string, Bytes>

  datatype StorageError = NotFound | Internal

  class Storage {
    var files: Files
    ghost var failures: nat

    constructor (files: Files)
      ensures this.files == files && failures == 0
    {
      this.files := files;
      failures := 0;
    }

    method SaveFile(name: string, data: Bytes) returns (err: bool)
      modifies this
      ensures !err ==> files == old(files)[name := data] && failures == old(failures)
      ensures err ==> files in {old(files), old(files)[name := data]} && failures > old(failures)
    {
      if * {
        files := files[name := data];
        err := false;
      } else {
        if * {
          files := files[name := data];
        }
        failures := failures + 1;
        err := true;
      }
    }

    method FileSize(cid: string) returns (r: Result<nat, StorageError>)
      modifies this
      ensures files == old(files) && failures >= old(failures)
      ensures r.Ok? ==> cid in files && r.value == |files[cid]| && failures == old(failures)
      ensures r == Err(NotFound) ==> cid !in files && failures == old(failures)
      ensures r == Err(Internal) ==> failures > old(failures)
    {
      if * {
        failures := failures + 1;
        r := Err(Internal);
      } else {
        r := if cid in files then Ok(|files[cid]|) else Err(NotFound);
      }
    }

    /** A failure to open a stored file is reported as if it did not exist. */
    method DownloadFile(cid: string) returns (r: Result<Bytes, StorageError>)
      modifies this
      ensures files == old(files) && failures >= old(failures)
      ensures r.Ok? ==> cid in files && r.value == files[cid] && failures == old(failures)
      ensures r.Err? && failures == old(failures) ==> r.error == NotFound && cid !in files
    {
      if * {
        failures := failures + 1;
        if * { r := Err(Internal); } else { r := Err(NotFound); }
      } else {
        r := if cid in files then Ok(files[cid]) else Err(NotFound);
      }
    }
  }
}
