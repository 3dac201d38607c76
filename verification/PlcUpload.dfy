/** The upload calls on the runtime's own table, digest context and files (app/src/plc_rpc.c:236-470, 525-740). */
module PlcUpload {
  import opened Bytes
  import opened Wrappers
  import opened UploadSpec

  class Uploads {
    const md5: Digest
    const table: array<Entry>
    var num: nat
    var hashed: seq<byte>
    var digesting: bool
    var files: map<string, seq<byte>>
    var open: set<string>
    var plcRun: bool
    var reload: bool
    var fault: bool

    ghost predicate Valid()
      reads this
    {
      table.Length == MAX_FILE_UPLOADS && num <= MAX_FILE_UPLOADS
    }

    function View(): State
      requires Valid()
      reads this, table
    {
      State(table[..num], hashed, digesting, files, open, plcRun, reload, fault)
    }

    constructor (md5: Digest, files: map<string, seq<byte>>)
      ensures Valid() && fresh(table) && this.md5 == md5
      ensures View() == State([], [], false, files, {}, false, false, false)
    {
      this.md5 := md5;
      this.files := files;
      table := new Entry[MAX_FILE_UPLOADS](_ => EMPTY);
      num, hashed, digesting, open := 0, [], false, {};
      plcRun, reload, fault := false, false, false;
    }

    /** The loop of get_filename_from_blobID and get_file_pointer_from_blobID. */
    method FindEntry(id: seq<byte>) returns (i: nat)
      requires Valid()
      ensures i == FindId(View().entries, id)
    {
      i := 0;
      ghost var entries := table[..num];
      assert entries[0..] == entries;
      while i < num
        invariant i <= num && i + FindId(entries[i..], id) == FindId(entries, id)
      {
        assert entries[i..][0] == table[i] && entries[i..][1..] == entries[i + 1..];
        if table[i].id == id {
          return;
        }
        i := i + 1;
      }
    }

    /** update_last_blobID. */
    method UpdateLastBlobId(id: seq<byte>)
      requires Valid()
      modifies table
      ensures View() == UpdateLast(old(View()), id)
    {
      if num > 0 {
        table[num - 1] := table[num - 1].(id := id);
      }
    }

    method GetFile(id: seq<byte>) returns (file: Option<string>)
      requires Valid()
      ensures file == FileFor(View(), id)
    {
      var i := FindEntry(id);
      file := if i < num then table[i].file else None;
    }

    method GetFilename(id: seq<byte>) returns (name: string)
      requires Valid()
      ensures name == NameFor(View(), id)
    {
      var i := FindEntry(id);
      name := if i < num then table[i].filename else "";
    }

    /** finish_fileUpload; `status` is 1 if the ID leads to no file. */
    method FinishFileUpload(id: seq<byte>) returns (status: nat)
      requires Valid()
      modifies this`open, this`fault, table
      ensures Valid() && View() == Finish(old(View()), id)
      ensures status == if FileFor(UpdateLast(old(View()), id), id).Some? then 0 else 1
    {
      UpdateLastBlobId(id);
      var file := GetFile(id);
      if file.None? {
        return 1;
      }
      fault := fault || file.value !in open;
      open := open - {file.value};
      status := 0;
    }

    /** prepare_fileUpload with the random name `name`. */
    method PrepareFileUpload(name: string, id: seq<byte>)
      requires Valid()
      modifies this`num, this`files, this`open, this`fault, table
      ensures Valid() && View() == Prepare(old(View()), name, id)
    {
      hide FindId, FileFor, Finish;
      if num > 0 && table[num - 1].file.Some? {
        var _ := FinishFileUpload(table[num - 1].id);
      }
      files, open := files[name := []], open + {name};
      ghost var entries := table[..num];
      if num < MAX_FILE_UPLOADS {
        table[num] := Entry(name, id, Some(name));
        num := num + 1;
        assert table[..num] == entries + [Entry(name, id, Some(name))];
      }
    }

    /** PurgeBlobs. */
    method PurgeBlobs()
      requires Valid()
      modifies this`files, table
      ensures Valid() && View() == Purge(old(View()))
    {
      files := WithoutTemporary(files);
      for i := 0 to MAX_FILE_UPLOADS
        invariant files == WithoutTemporary(old(files)) && forall j :: 0 <= j < i ==> table[j] == EMPTY
      {
        table[i] := EMPTY;
      }
      assert table[..num] == seq(num, _ => EMPTY);
    }

    /** SeedBlob with the random name `name`. */
    method SeedBlob(seed: seq<byte>, name: string) returns (id: seq<byte>)
      requires Valid()
      modifies this, table
      ensures Valid() && View() == Seed(old(View()), md5, name, seed) && id == md5(seed)
    {
      hide Prepare;
      id := md5(seed);
      PrepareFileUpload(name, id);
      hashed, digesting := seed, true;
    }

    /** AppendChunkToBlob. */
    method AppendChunkToBlob(chunk: seq<byte>) returns (status: nat, newId: seq<byte>)
      requires Valid()
      modifies this, table
      ensures Valid() && (View(), status, newId) == Append(old(View()), md5, chunk)
    {
      hide FindId;
      fault := fault || !digesting;
      hashed := hashed + chunk;
      newId := md5(hashed);
      UpdateLastBlobId(newId);
      var file := GetFile(newId);
      if file.None? {
        return 3, newId;
      }
      if file.value in open && file.value in files {
        files := files[file.value := files[file.value] + chunk];
        status := 0;
      } else {
        fault := true;
        status := 4;
      }
    }

    /** fs_rename. */
    method RenameFile(from: string, to: string) returns (ok: bool)
      requires Valid()
      modifies this`files
      ensures (files, ok) == Rename(old(files), from, to) && (!ok ==> files == old(files))
    {
      ok := from in files;
      if ok {
        files := (files - {from})[to := files[from]];
      }
    }

    /** NewPLC's loop over the extra files. */
    method MoveExtraFiles(extras: seq<NamedUpload>) returns (ok: bool)
      requires Valid()
      modifies this`files
      ensures Valid() && (View(), ok) == MoveExtras(old(View()), extras)
    {
      hide Rename, NameFor, Destination;
      var i := 0;
      assert extras[0..] == extras;
      while i < |extras|
        invariant i <= |extras| && Valid() && MoveExtras(View(), extras[i..]) == MoveExtras(old(View()), extras)
      {
        assert extras[i..][0] == extras[i] && extras[i..][1..] == extras[i + 1..];
        var name := GetFilename(extras[i].id);
        ok := RenameFile(name, Destination(extras[i].fname));
        if !ok {
          return false;
        }
        i := i + 1;
      }
      ok := true;
    }

    /** Makes the uploaded file the PLC program. */
    method InstallFile(name: string)
      requires Valid()
      modifies this`files
      ensures files == Install(old(files), name)
    {
      if PLC_MD5_FILE in files {
        files := files - {PLC_BIN_FILE};
      }
      var _ := RenameFile(name, PLC_BIN_FILE);
    }

    /** NewPLC. The ID may be no longer than the digest, of whose bytes the check reads as many as the ID has. */
    method ReceivePlc(md5sum: seq<byte>, id: seq<byte>, extras: seq<NamedUpload>) returns (success: bool)
      requires Valid() && |md5(hashed)| == DIGEST_SIZE && |id| <= DIGEST_SIZE
      modifies this, table
      ensures Valid() && (View(), success) == NewPlc(old(View()), md5, md5sum, id, extras)
    {
      hide Finish, NameFor, Install, MoveExtras, UpdateLast, FileFor;
      var digest := md5(hashed);
      var _ := FinishFileUpload(id);
      fault := fault || !digesting;
      digesting := false;
      if digest[..|id|] != id {
        return false;
      }
      var name := GetFilename(id);
      plcRun := false;
      InstallFile(name);
      success := MoveExtraFiles(extras);
      if success {
        files := files[PLC_MD5_FILE := md5sum];
        reload := true;
      }
    }
  }
}
