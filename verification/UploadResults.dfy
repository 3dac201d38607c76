/** What the upload protocol promises over all orderly histories, and where it does not. */
module UploadResults {
  import opened Bytes
  import opened Wrappers
  import opened UploadSpec

  function Boot(files: map<string, seq<byte>>): State {
    State([], [], false, files, {}, false, false, false)
  }

  lemma PurgeReflects(s: State, md5: Digest, scope: Scope, h: History)
    requires Reflects(s, md5, scope, h)
    ensures Reflects(Purge(s), md5, scope, History(Retired(h.uploads), Idle))
  {
  }

  /** Finishing the open upload under its own ID closes its file and changes nothing else. */
  lemma FinishCloses(s: State, md5: Digest, scope: Scope, h: History)
    requires Injective(md5, scope) && Reflects(s, md5, scope, h) && h.phase.Loading?
    ensures var u := h.uploads[|h.uploads| - 1];
            Finish(s, s.entries[|h.uploads| - 1].id) == s.(open := s.open - {u.name})
  {
    var n := |h.uploads| - 1;
    assert Shows(s, md5, s.entries[n], h.uploads[n]);
    FoundById(s, md5, scope, h, n);
    assert UpdateLast(s, s.entries[n].id).entries == s.entries;
  }

  lemma SeedEffect(s: State, md5: Digest, scope: Scope, h: History, name: string, seed: seq<byte>)
    requires Injective(md5, scope) && Reflects(s, md5, scope, h) && Allowed(md5, scope, h, SeedEvent(name, seed))
    ensures Seed(s, md5, name, seed)
            == s.(hashed := seed, digesting := true, files := s.files[name := []],
                  entries := s.entries + [Entry(name, md5(seed), Some(name))],
                  open := (if h.phase.Loading? then s.open - {h.uploads[|h.uploads| - 1].name} else s.open) + {name})
  {
    hide FindId, Finish, IsTemporary, Distinct;
    var n := |h.uploads|;
    if n > 0 {
      assert Shows(s, md5, s.entries[n - 1], h.uploads[n - 1]);
    }
    if h.phase.Loading? {
      FinishCloses(s, md5, scope, h);
    }
  }

  lemma SeedDistinct(scope: Scope, uploads: seq<Upload>, name: string, seed: seq<byte>)
    requires Distinct(scope, uploads) && FreshSeed(scope, uploads, name, seed)
    ensures Distinct(scope, uploads + [Upload(name, seed, [], true)])
  {
    hide IsTemporary;
    assert seed + [] == seed;
  }

  lemma SeedShows(s: State, md5: Digest, scope: Scope, h: History, name: string, seed: seq<byte>, i: nat)
    requires Reflects(s, md5, scope, h) && Allowed(md5, scope, h, SeedEvent(name, seed)) && i <= |h.uploads|
    ensures var s' := s.(files := s.files[name := []], entries := s.entries + [Entry(name, md5(seed), Some(name))]);
            Shows(s', md5, s'.entries[i], (h.uploads + [Upload(name, seed, [], true)])[i])
  {
    hide IsTemporary, Distinct;
    assert seed + [] == seed;
    if i < |h.uploads| {
      assert Shows(s, md5, s.entries[i], h.uploads[i]);
    }
  }

  lemma ShowsFiles(s: State, t: State, md5: Digest, e: Entry, u: Upload)
    requires s.files == t.files && Shows(s, md5, e, u)
    ensures Shows(t, md5, e, u)
  {
  }

  lemma SeedReflects(s: State, md5: Digest, scope: Scope, h: History, name: string, seed: seq<byte>)
    requires Injective(md5, scope) && Reflects(s, md5, scope, h) && Allowed(md5, scope, h, SeedEvent(name, seed))
    ensures Reflects(Seed(s, md5, name, seed), md5, scope, History(h.uploads + [Upload(name, seed, [], true)], Loading))
  {
    SeedEffect(s, md5, scope, h, name, seed);
    SeedDistinct(scope, h.uploads, name, seed);
    hide Seed, Injective, IsTemporary, Distinct, Shows;
    assert seed + [] == seed;
    var n := |h.uploads|;
    var s' := Seed(s, md5, name, seed);
    var uploads := h.uploads + [Upload(name, seed, [], true)];
    forall i | 0 <= i <= n
      ensures Shows(s', md5, s'.entries[i], uploads[i])
    {
      SeedShows(s, md5, scope, h, name, seed, i);
      ShowsFiles(s.(files := s'.files, entries := s'.entries), s', md5, s'.entries[i], uploads[i]);
    }
    SeedOpens(s, md5, scope, h, name, seed, s');
  }

  lemma SeedOpens(s: State, md5: Digest, scope: Scope, h: History, name: string, seed: seq<byte>, s': State)
    requires Reflects(s, md5, scope, h) && Allowed(md5, scope, h, SeedEvent(name, seed))
    requires s'.digesting && s'.hashed == seed
    requires s'.open == (if h.phase.Loading? then s.open - {h.uploads[|h.uploads| - 1].name} else s.open) + {name}
    ensures LastIsOpen(s', h.uploads + [Upload(name, seed, [], true)])
  {
    hide IsTemporary, Distinct, Shows;
    assert seed + [] == seed;
  }

  /** Giving the last upload a new ID that no entry before it has makes it the one found by that ID. */
  lemma LastFound(s: State, id: seq<byte>)
    requires s.entries != [] && forall i :: 0 <= i < |s.entries| - 1 ==> s.entries[i].id != id
    ensures var s' := UpdateLast(s, id); var n := |s.entries| - 1;
            && s' == s.(entries := s.entries[n := s.entries[n].(id := id)])
            && FindId(s'.entries, id) == n && FileFor(s', id) == s.entries[n].file
            && NameFor(s', id) == s.entries[n].filename
  {
    var s' := UpdateLast(s, id);
    var n := |s.entries| - 1;
    assert s'.entries[n].id == id;
  }

  /** The IDs of the entries before the last differ from the last upload's, and from any other non-empty ID that names
      no earlier upload. */
  lemma EarlierIds(s: State, md5: Digest, scope: Scope, h: History, id: seq<byte>)
    requires Injective(md5, scope) && Reflects(s, md5, scope, h) && h.phase.Loading?
    requires id != [] && !NamesEarlier(md5, h.uploads, id)
    ensures forall i :: 0 <= i < |s.entries| - 1 ==> s.entries[i].id != id
  {
    forall i | 0 <= i < |s.entries| - 1
      ensures s.entries[i].id != id
    {
      assert Shows(s, md5, s.entries[i], h.uploads[i]);
    }
  }

  lemma NewIdIsFresh(md5: Digest, scope: Scope, uploads: seq<Upload>, u: Upload)
    requires Injective(md5, scope) && Distinct(scope, uploads) && uploads != [] && uploads[|uploads| - 1].live
    requires u == uploads[|uploads| - 1].(data := u.data) && u.seed + u.data in scope.hashes
    ensures Distinct(scope, uploads[|uploads| - 1 := u]) && !NamesEarlier(md5, uploads, IdOf(md5, u))
  {
    var n := |uploads| - 1;
    forall i | 0 <= i < n && uploads[i].live
      ensures IdOf(md5, uploads[i]) != IdOf(md5, u)
    {
      IdsDiffer(md5, scope, uploads[n := u], i, n);
    }
  }

  lemma AppendEffect(s: State, md5: Digest, scope: Scope, h: History, chunk: seq<byte>)
    requires Injective(md5, scope) && Reflects(s, md5, scope, h) && h.phase.Loading? && InScope(scope, h.uploads, chunk)
    ensures var n := |h.uploads| - 1; var u := h.uploads[n].(data := h.uploads[n].data + chunk);
            && Distinct(scope, h.uploads[n := u])
            && Append(s, md5, chunk)
               == (s.(hashed := u.seed + u.data, entries := s.entries[n := s.entries[n].(id := IdOf(md5, u))],
                      files := s.files[u.name := u.data]), 0, IdOf(md5, u))
  {
    hide FindId, NamesEarlier, UpdateLast, FileFor, IsTemporary;
    var n := |h.uploads| - 1;
    var u := h.uploads[n].(data := h.uploads[n].data + chunk);
    var s1 := s.(hashed := s.hashed + chunk);
    assert s1.hashed == u.seed + u.data;
    NewIdIsFresh(md5, scope, h.uploads, u);
    EarlierIds(s, md5, scope, h, IdOf(md5, u));
    LastFound(s1, IdOf(md5, u));
    assert Shows(s, md5, s.entries[n], h.uploads[n]);
  }

  /** Appending keeps the table in step, answers the new ID and reports success. */
  lemma AppendReflects(s: State, md5: Digest, scope: Scope, h: History, chunk: seq<byte>)
    requires Injective(md5, scope) && Reflects(s, md5, scope, h) && h.phase.Loading? && InScope(scope, h.uploads, chunk)
    ensures var n := |h.uploads| - 1;
            var (s', status, newId) := Append(s, md5, chunk);
            var uploads := h.uploads[n := h.uploads[n].(data := h.uploads[n].data + chunk)];
            Reflects(s', md5, scope, History(uploads, Loading)) && status == 0 && newId == IdOf(md5, uploads[n])
  {
    AppendEffect(s, md5, scope, h, chunk);
    hide Append, Injective, IdOf, IsTemporary;
    var n := |h.uploads| - 1;
    var s' := Append(s, md5, chunk).0;
    var uploads := h.uploads[n := h.uploads[n].(data := h.uploads[n].data + chunk)];
    forall i | 0 <= i <= n
      ensures Shows(s', md5, s'.entries[i], uploads[i])
    {
      assert Shows(s, md5, s.entries[i], h.uploads[i]);
      if i < n && uploads[i].live {
        assert h.uploads[i].name != h.uploads[n].name;
      }
    }
  }

  lemma FinishFrame(s: State, id: seq<byte>)
    ensures var s' := Finish(s, id);
            s' == s.(entries := s'.entries, open := s'.open, fault := s'.fault) && |s'.entries| == |s.entries|
  {
  }

  lemma EarlierIdFaults(s: State, md5: Digest, scope: Scope, h: History, id: seq<byte>, i: nat)
    requires Injective(md5, scope) && Reflects(s, md5, scope, h) && h.phase.Loading?
    requires i < |h.uploads| - 1 && h.uploads[i].live && IdOf(md5, h.uploads[i]) == id
    ensures Finish(s, id).fault
  {
    var n := |h.uploads| - 1;
    FoundById(s, md5, scope, h, i);
    hide Injective, IsTemporary, Distinct;
    var s1 := UpdateLast(s, id);
    assert s1.entries[i] == s.entries[i] && Shows(s, md5, s.entries[i], h.uploads[i]);
  }

  lemma OtherIdCloses(s: State, md5: Digest, scope: Scope, h: History, id: seq<byte>)
    requires Reflects(s, md5, scope, h) && h.phase.Loading? && !NamesEarlier(md5, h.uploads, id)
    ensures !Finish(s, id).fault
  {
    hide IsTemporary, Distinct;
    var n := |h.uploads| - 1;
    var s1 := UpdateLast(s, id);
    var k := FindId(s1.entries, id);
    assert s1.entries[n].id == id && k <= n;
    assert Shows(s, md5, s.entries[k], h.uploads[k]);
  }

  /** What NewPLC's closing does, whatever ID it is given: it faults exactly when the ID is that of an earlier upload,
      whose file is closed already. */
  lemma ClosingFaults(s: State, md5: Digest, scope: Scope, h: History, id: seq<byte>)
    requires Injective(md5, scope) && Reflects(s, md5, scope, h) && h.phase.Loading?
    ensures Finish(s, id).fault <==> NamesEarlier(md5, h.uploads, id)
  {
    if NamesEarlier(md5, h.uploads, id) {
      var i: nat :| i < |h.uploads| - 1 && h.uploads[i].live && IdOf(md5, h.uploads[i]) == id;
      EarlierIdFaults(s, md5, scope, h, id, i);
    } else {
      OtherIdCloses(s, md5, scope, h, id);
    }
  }

  lemma {:induction false} MoveExtrasFrame(s: State, extras: seq<NamedUpload>)
    ensures MoveExtras(s, extras).0 == s.(files := MoveExtras(s, extras).0.files)
    decreases |extras|
  {
    if extras != [] {
      var (files, ok) := Rename(s.files, NameFor(s, extras[0].id), Destination(extras[0].fname));
      if ok {
        MoveExtrasFrame(s.(files := files), extras[1..]);
      }
    }
  }

  lemma NewReflects(s: State, md5: Digest, scope: Scope, h: History, md5sum: seq<byte>, id: seq<byte>,
      extras: seq<NamedUpload>)
    requires Injective(md5, scope) && Reflects(s, md5, scope, h) && h.phase.Loading?
        && !NamesEarlier(md5, h.uploads, id)
    ensures Reflects(NewPlc(s, md5, md5sum, id, extras).0, md5, scope, h.(phase := Spent))
  {
    FinishFrame(s, id);
    ClosingFaults(s, md5, scope, h, id);
    hide Finish, Injective, Shows, NamesEarlier, IsTemporary, NameFor, Install, MoveExtras, Matches;
    var s1 := Finish(s, id);
    var s2 := s1.(digesting := false, fault := s1.fault || !s1.digesting);
    if Matches(md5(s.hashed), id) {
      MoveExtrasFrame(s2.(plcRun := false, files := Install(s2.files, NameFor(s2, id))), extras);
    }
  }

  lemma BootReflects(files: map<string, seq<byte>>, md5: Digest, scope: Scope)
    ensures Reflects(Boot(files), md5, scope, Told([]))
  {
  }

  /** Upload integrity: over every orderly history the table shows each live upload's own chunks, in order and without
      the seed, under its final ID, and no closed file or finished digest is ever used. */
  lemma {:induction false} UploadIntegrity(files: map<string, seq<byte>>, md5: Digest, scope: Scope, events: seq<Event>)
    requires Injective(md5, scope) && Orderly(md5, scope, events)
    ensures Reflects(Run(Boot(files), md5, events), md5, scope, Told(events))
    decreases |events|
  {
    hide Reflects, Injective, NamesEarlier, IsTemporary, InScope, FreshSeed, Seed, Append, Purge, NewPlc;
    if events == [] {
      BootReflects(files, md5, scope);
    } else {
      assert events != [];
      var before := events[..|events| - 1];
      UploadIntegrity(files, md5, scope, before);
      var s, h := Run(Boot(files), md5, before), Told(before);
      assert Allowed(md5, scope, h, events[|events| - 1]);
      match events[|events| - 1]
      case PurgeEvent => PurgeReflects(s, md5, scope, h);
      case SeedEvent(name, seed) => SeedReflects(s, md5, scope, h, name, seed);
      case AppendEvent(chunk) =>
        AppendReflects(s, md5, scope, h, chunk);
        LoadingHasUploads(s, md5, scope, h);
      case NewEvent(md5sum, id, extras) => NewReflects(s, md5, scope, h, md5sum, id, extras);
    }
  }

  lemma LoadingHasUploads(s: State, md5: Digest, scope: Scope, h: History)
    requires Reflects(s, md5, scope, h) && h.phase.Loading?
    ensures h.uploads != [] && h == History(h.uploads, Loading)
  {
  }

  // ---------------------------------------------------------------- NewPLC's verdict

  /** The ID reaches the last upload: it is that of no entry before it. */
  predicate ReachesLast(s: State, id: seq<byte>) {
    s.entries != [] && forall i :: 0 <= i < |s.entries| - 1 ==> s.entries[i].id != id
  }

  /** The state in which NewPLC starts to move the extra files. */
  function Accepted(s: State, id: seq<byte>, u: Upload): State {
    var n := |s.entries| - 1;
    var cleared := if PLC_MD5_FILE in s.files then s.files - {PLC_BIN_FILE} else s.files;
    if n < 0 then s
    else s.(entries := s.entries[n := s.entries[n].(id := id)], open := s.open - {u.name}, digesting := false,
            plcRun := false, files := (cleared - {u.name})[PLC_BIN_FILE := u.data])
  }

  lemma TemporaryPath(name: string)
    ensures IsTemporary(name) ==> |name| > 6 && name[6] == 't'
  {
    if IsTemporary(name) {
      assert name[6] == name[..|TMP_FILE_PATH|][6];
    }
  }

  lemma PathsDiffer(fname: string)
    ensures !IsTemporary(Destination(fname)) && !IsTemporary(PLC_BIN_FILE) && !IsTemporary(PLC_MD5_FILE)
    ensures Destination(fname) != ""
    ensures PLC_BIN_FILE != PLC_MD5_FILE
  {
    TemporaryPath(Destination(fname));
    TemporaryPath(PLC_BIN_FILE);
    TemporaryPath(PLC_MD5_FILE);
    assert Destination(fname)[6] == if IsWebFile(fname) then 'w' else 'p';
    assert PLC_BIN_FILE[10] != PLC_MD5_FILE[10];
  }

  lemma {:induction false} NoExtension(name: string)
    requires '.' !in name
    ensures Extension(name) == ""
  {
    if name != "" {
      assert name[0] in name;
      NoExtension(name[1..]);
    }
  }

  lemma {:induction false} LastExtension(stem: string, ext: string)
    requires '.' !in ext
    ensures Extension(stem + "." + ext) == "." + ext
    decreases |stem|
  {
    var name := stem + "." + ext;
    if stem == "" {
      assert name == "." + ext && name[1..] == ext;
      NoExtension(ext);
    } else {
      assert name[1..] == stem[1..] + "." + ext;
      LastExtension(stem[1..], ext);
    }
  }

  lemma WebExtensions(ext: string)
    ensures "." + ext in [".htm", ".html", ".js", ".json", ".css"] <==> ext in ["htm", "html", "js", "json", "css"]
  {
    assert ("." + ext)[1..] == ext;
    assert "." + "htm" == ".htm" && "." + "html" == ".html" && "." + "js" == ".js";
    assert "." + "json" == ".json" && "." + "css" == ".css";
  }

  /** The place of an extra file: behind its last dot, one of five extensions leads to the web root, with a second
      slash; any other, or none, to the PLC's own files. */
  lemma PlaceByExtension(stem: string, ext: string)
    requires '.' !in ext
    ensures Destination(stem + "." + ext)
            == (if ext in ["htm", "html", "js", "json", "css"] then "/lfs:/www//" else "/lfs:/plc/")
                + (stem + "." + ext)
    ensures '.' !in stem ==> Destination(stem) == "/lfs:/plc/" + stem
  {
    LastExtension(stem, ext);
    WebExtensions(ext);
    assert HTTP_ROOT + "/" == "/lfs:/www//";
    if '.' !in stem {
      NoExtension(stem);
    }
  }

  /** For instance. */
  lemma IndexIsServed()
    ensures Destination("index.htm") == "/lfs:/www//index.htm"
  {
    hide Destination;
    assert "index" + "." + "htm" == "index.htm";
    PlaceByExtension("index", "htm");
    assert "/lfs:/www//" + "index.htm" == "/lfs:/www//index.htm";
  }

  lemma MapIsNotServed()
    ensures Destination("htm.map") == "/lfs:/plc/htm.map"
  {
    hide Destination;
    assert "htm" + "." + "map" == "htm.map";
    PlaceByExtension("htm", "map");
    assert "/lfs:/plc/" + "htm.map" == "/lfs:/plc/htm.map";
  }

  /** A purge deletes every temporary upload and nothing else: the installed program, its MD5 file and every extra file
      that NewPLC put in its place stay as they are. */
  lemma PurgeSpares(s: State, name: string, fname: string)
    ensures "/lfs:/tmp/" + name + ".tmp" !in Purge(s).files
    ensures forall f :: f in {"/lfs:/plc/plc.bin", "/lfs:/plc/md5.txt", Destination(fname)} ==>
              (f in Purge(s).files <==> f in s.files)
              && (f in s.files ==> Purge(s).files[f] == s.files[f])
    ensures Purge(s).files.Keys <= s.files.Keys
  {
    var path := "/lfs:/tmp/" + name + ".tmp";
    assert path[..10] == "/lfs:/tmp/" && path[|path| - 4..] == ".tmp";
    PathsDiffer(fname);
  }

  lemma LoadingNames(s: State, md5: Digest, scope: Scope, h: History, i: nat)
    requires Reflects(s, md5, scope, h) && i < |h.uploads|
    ensures IsTemporary(h.uploads[i].name)
  {
  }

  lemma NewPlcEffect(s: State, md5: Digest, scope: Scope, h: History, md5sum: seq<byte>, id: seq<byte>,
                     extras: seq<NamedUpload>)
    requires Reflects(s, md5, scope, h) && h.phase.Loading? && ReachesLast(s, id)
    ensures var u := h.uploads[|h.uploads| - 1];
            var (s', ok) := NewPlc(s, md5, md5sum, id, extras);
            if Matches(IdOf(md5, u), id) then
              var (moved, done) := MoveExtras(Accepted(s, id, u), extras);
              ok == done
              && s' == if done then moved.(files := moved.files[PLC_MD5_FILE := md5sum], reload := true) else moved
            else
              !ok && s'.files == s.files && s'.plcRun == s.plcRun && s'.reload == s.reload
  {
    hide FindId, UpdateLast, FileFor, NameFor, Matches, MoveExtras, Distinct, IsTemporary;
    var n := |h.uploads| - 1;
    var u := h.uploads[n];
    LastFound(s, id);
    assert Shows(s, md5, s.entries[n], u);
    var s1 := Finish(s, id);
    assert s1 == s.(entries := s.entries[n := s.entries[n].(id := id)], open := s.open - {u.name});
    LastName(s, s1.(digesting := false), id, u.name);
    assert u.name != PLC_BIN_FILE by {
      PathsDiffer("");
      LoadingNames(s, md5, scope, h, n);
    }
  }

  lemma LastName(s: State, s1: State, id: seq<byte>, name: string)
    requires ReachesLast(s, id) && s.entries[|s.entries| - 1].filename == name
    requires s1.entries == s.entries[|s.entries| - 1 := s.entries[|s.entries| - 1].(id := id)]
    ensures NameFor(s1, id) == name
  {
    LastFound(s, id);
  }

  /** Every extra file names an upload before the last, and no two of them the same one. */
  predicate Deliverable(md5: Digest, uploads: seq<Upload>, extras: seq<NamedUpload>) {
    && (forall k :: 0 <= k < |extras| ==> NamesEarlier(md5, uploads, extras[k].id))
    && (forall j, k :: 0 <= j < k < |extras| ==> extras[j].id != extras[k].id)
  }

  /** No entry before the last upload's was purged. */
  predicate NonePurged(uploads: seq<Upload>) {
    forall i :: 0 <= i < |uploads| - 1 ==> uploads[i].live
  }

  /** NewPLC's answer to any ID the digest can be compared with, whatever extra files it is given. If the ID is the last
      upload's or a prefix of it, and it is not empty or no entry was purged, the last upload is installed and the
      program stopped; it stays installed when the call then reports failure, which it does unless every extra file
      names a different earlier upload. If the ID is no such prefix, the call reports failure and changes no file and no
      flag. It uses a closed file exactly when the ID is that of an earlier upload. */
  lemma NewPlcVerdict(s: State, md5: Digest, scope: Scope, h: History, md5sum: seq<byte>, id: seq<byte>,
                      extras: seq<NamedUpload>)
    requires Injective(md5, scope) && Reflects(s, md5, scope, h) && h.phase.Loading? && |id| <= DIGEST_SIZE
    ensures NewPlc(s, md5, md5sum, id, extras).0.fault <==> NamesEarlier(md5, h.uploads, id)
    ensures var u := h.uploads[|h.uploads| - 1];
            var (s', ok) := NewPlc(s, md5, md5sum, id, extras);
            if id <= IdOf(md5, u) then
              id != [] || NonePurged(h.uploads) ==>
                && !s'.plcRun && s'.reload == (ok || s.reload)
                && ("" !in s.files ==> (ok <==> Deliverable(md5, h.uploads, extras)))
                && ((forall e :: e in extras ==> Destination(e.fname) != PLC_BIN_FILE) ==>
                      PLC_BIN_FILE in s'.files && s'.files[PLC_BIN_FILE] == u.data)
            else
              !ok && s'.files == s.files && s'.plcRun == s.plcRun && s'.reload == s.reload
  {
    ClosingFaults(s, md5, scope, h, id);
    NewPlcFaults(s, md5, md5sum, id, extras);
    LastIsHashed(s, md5, scope, h);
    var u := h.uploads[|h.uploads| - 1];
    MatchesIsPrefix(IdOf(md5, u), id);
    if id <= IdOf(md5, u) {
      if id != [] || NonePurged(h.uploads) {
        PrefixReachesLast(s, md5, scope, h, id);
        RightIdInstalls(s, md5, scope, h, md5sum, id, extras);
        if "" !in s.files {
          DeliverableSucceeds(s, md5, scope, h, id, extras);
        }
      }
    } else {
      WrongIdChangesNothing(s, md5, md5sum, id, extras);
    }
  }

  lemma MatchesIsPrefix(digest: seq<byte>, id: seq<byte>)
    ensures Matches(digest, id) <==> id <= digest
  {
  }

  /** A prefix of the last upload's ID is that of no other entry, unless it is empty and an entry was purged. */
  lemma PrefixReachesLast(s: State, md5: Digest, scope: Scope, h: History, id: seq<byte>)
    requires Injective(md5, scope) && Reflects(s, md5, scope, h) && h.phase.Loading?
    requires id <= IdOf(md5, h.uploads[|h.uploads| - 1]) && (id != [] || NonePurged(h.uploads))
    ensures ReachesLast(s, id)
  {
    var n := |h.uploads| - 1;
    LastReached(s, md5, scope, h);
    var last := IdOf(md5, h.uploads[n]);
    forall i | 0 <= i < n
      ensures s.entries[i].id != id
    {
      assert Shows(s, md5, s.entries[i], h.uploads[i]);
      if |id| == DIGEST_SIZE {
        assert id == last;
      }
    }
  }

  lemma LastIsHashed(s: State, md5: Digest, scope: Scope, h: History)
    requires Reflects(s, md5, scope, h) && h.phase.Loading?
    ensures h.uploads != [] && md5(s.hashed) == IdOf(md5, h.uploads[|h.uploads| - 1]) && s.digesting && !s.fault
  {
  }

  lemma NewPlcFaults(s: State, md5: Digest, md5sum: seq<byte>, id: seq<byte>, extras: seq<NamedUpload>)
    ensures NewPlc(s, md5, md5sum, id, extras).0.fault == (Finish(s, id).fault || !s.digesting)
  {
    FinishFrame(s, id);
    hide Finish, NameFor, Install, MoveExtras, Matches;
    var s1 := Finish(s, id);
    var s2 := s1.(digesting := false, fault := s1.fault || !s1.digesting);
    MoveExtrasFrame(s2.(plcRun := false, files := Install(s2.files, NameFor(s2, id))), extras);
  }

  lemma WrongIdChangesNothing(s: State, md5: Digest, md5sum: seq<byte>, id: seq<byte>, extras: seq<NamedUpload>)
    requires !Matches(md5(s.hashed), id)
    ensures var (s', ok) := NewPlc(s, md5, md5sum, id, extras);
            !ok && s'.files == s.files && s'.plcRun == s.plcRun && s'.reload == s.reload
  {
    FinishFrame(s, id);
    hide Finish, NameFor, Install, MoveExtras, Matches;
  }

  /** What an accepted ID, or a prefix of it, leads to. */
  lemma RightIdInstalls(s: State, md5: Digest, scope: Scope, h: History, md5sum: seq<byte>, id: seq<byte>,
                        extras: seq<NamedUpload>)
    requires Reflects(s, md5, scope, h) && h.phase.Loading? && ReachesLast(s, id)
    requires Matches(IdOf(md5, h.uploads[|h.uploads| - 1]), id)
    ensures var u := h.uploads[|h.uploads| - 1];
            var (s', ok) := NewPlc(s, md5, md5sum, id, extras);
            && !s'.plcRun && s'.reload == (ok || s.reload)
            && (ok <==> MoveExtras(Accepted(s, id, u), extras).1)
            && ((forall e :: e in extras ==> Destination(e.fname) != PLC_BIN_FILE) ==>
                  PLC_BIN_FILE in s'.files && s'.files[PLC_BIN_FILE] == u.data)
  {
    var u := h.uploads[|h.uploads| - 1];
    NewPlcEffect(s, md5, scope, h, md5sum, id, extras);
    AcceptedFlags(s, id, u);
    MoveExtrasFrame(Accepted(s, id, u), extras);
    PathsDiffer("");
    LoadingNames(s, md5, scope, h, |h.uploads| - 1);
    if forall e :: e in extras ==> Destination(e.fname) != PLC_BIN_FILE {
      ProgramKept(s, md5, scope, h, id, extras);
    }
    hide Accepted, Destination, IsTemporary, NewPlc, MoveExtras, Reflects, Matches, IdOf;
  }

  lemma AcceptedFlags(s: State, id: seq<byte>, u: Upload)
    requires s.entries != []
    ensures var s1 := Accepted(s, id, u);
            !s1.plcRun && s1.reload == s.reload && PLC_BIN_FILE in s1.files && s1.files[PLC_BIN_FILE] == u.data
  {
  }

  /** No name in the table is the program's, so no extra file can take it away. */
  lemma NamesSpareProgram(s: State, md5: Digest, scope: Scope, h: History, s1: State, id: seq<byte>)
    requires Reflects(s, md5, scope, h) && h.phase.Loading? && |s1.entries| == |s.entries|
    requires forall i :: 0 <= i < |s.entries| ==> s1.entries[i].filename == s.entries[i].filename
    ensures NameFor(s1, id) != PLC_BIN_FILE
  {
    var k := FindId(s1.entries, id);
    if k < |s1.entries| {
      assert Shows(s, md5, s.entries[k], h.uploads[k]);
      LoadingNames(s, md5, scope, h, k);
      PathsDiffer("");
    }
  }

  lemma AcceptedEntries(s: State, id: seq<byte>, u: Upload)
    requires s.entries != []
    ensures |Accepted(s, id, u).entries| == |s.entries|
    ensures forall i :: 0 <= i < |s.entries| ==> Accepted(s, id, u).entries[i].filename == s.entries[i].filename
  {
  }

  /** Whatever extra files are moved, the installed program stays, unless one of them is itself named like it. */
  lemma ProgramKept(s: State, md5: Digest, scope: Scope, h: History, id: seq<byte>, extras: seq<NamedUpload>)
    requires Reflects(s, md5, scope, h) && h.phase.Loading?
    requires forall e :: e in extras ==> Destination(e.fname) != PLC_BIN_FILE
    ensures var u := h.uploads[|h.uploads| - 1];
            var files := MoveExtras(Accepted(s, id, u), extras).0.files;
            PLC_BIN_FILE in files && files[PLC_BIN_FILE] == u.data
  {
    LoadingHasUploads(s, md5, scope, h);
    var u := h.uploads[|h.uploads| - 1];
    var s1 := Accepted(s, id, u);
    AcceptedFlags(s, id, u);
    AcceptedEntries(s, id, u);
    hide Accepted, Destination, MoveExtras, NameFor;
    forall e | e in extras
      ensures NameFor(s1, e.id) != PLC_BIN_FILE
    {
      NamesSpareProgram(s, md5, scope, h, s1, e.id);
    }
    Untouched(s1, extras, PLC_BIN_FILE);
  }

  /** Instances of that verdict: an extra file whose ID is in no entry, one that names the last upload, and two that
      name the same upload. NewPLC reports failure, although the new program is installed and the old one stopped, and
      the loader is not told to reload. */
  lemma UnknownExtraFails(s: State, md5: Digest, scope: Scope, h: History, md5sum: seq<byte>, extras: seq<NamedUpload>,
                          k: nat)
    requires Injective(md5, scope) && Reflects(s, md5, scope, h) && h.phase.Loading? && "" !in s.files
    requires k < |extras|
    requires || FindId(s.entries, extras[k].id) == |s.entries|
             || extras[k].id == IdOf(md5, h.uploads[|h.uploads| - 1])
             || exists j :: 0 <= j < k && extras[j].id == extras[k].id
    requires forall e :: e in extras ==> Destination(e.fname) != PLC_BIN_FILE
    ensures var u := h.uploads[|h.uploads| - 1];
            var (s', ok) := NewPlc(s, md5, md5sum, IdOf(md5, u), extras);
            && !ok && !s'.plcRun && s'.reload == s.reload
            && PLC_BIN_FILE in s'.files && s'.files[PLC_BIN_FILE] == u.data
  {
    LoadingHasUploads(s, md5, scope, h);
    var u := h.uploads[|h.uploads| - 1];
    NewPlcVerdict(s, md5, scope, h, md5sum, IdOf(md5, u), extras);
    Undeliverable(s, md5, scope, h, extras, k);
    assert |IdOf(md5, u)| == DIGEST_SIZE;
    hide NewPlc, Deliverable, Reflects, Injective, Destination, IdOf, FindId;
  }

  lemma Undeliverable(s: State, md5: Digest, scope: Scope, h: History, extras: seq<NamedUpload>, k: nat)
    requires Injective(md5, scope) && Reflects(s, md5, scope, h) && h.phase.Loading? && k < |extras|
    requires || FindId(s.entries, extras[k].id) == |s.entries|
             || extras[k].id == IdOf(md5, h.uploads[|h.uploads| - 1])
             || exists j :: 0 <= j < k && extras[j].id == extras[k].id
    ensures !Deliverable(md5, h.uploads, extras)
  {
    LoadingHasUploads(s, md5, scope, h);
    LastIsFresh(s, md5, scope, h);
    if NamesEarlier(md5, h.uploads, extras[k].id) {
      var i: nat :| i < |h.uploads| - 1 && h.uploads[i].live && IdOf(md5, h.uploads[i]) == extras[k].id;
      FoundById(s, md5, scope, h, i);
      assert |h.uploads| == |s.entries|;
    }
    hide Reflects, Injective, FindId, IdOf, NamesEarlier;
  }

  lemma LastIsFresh(s: State, md5: Digest, scope: Scope, h: History)
    requires Injective(md5, scope) && Reflects(s, md5, scope, h) && h.phase.Loading?
    ensures !NamesEarlier(md5, h.uploads, IdOf(md5, h.uploads[|h.uploads| - 1]))
  {
    NewIdIsFresh(md5, scope, h.uploads, h.uploads[|h.uploads| - 1]);
  }

  /** A shorter ID is only compared over its own length: any proper prefix of the right ID installs the last upload as
      well, except the empty one when an entry was purged. */
  lemma PrefixPasses(s: State, md5: Digest, scope: Scope, h: History, md5sum: seq<byte>, size: nat,
                     extras: seq<NamedUpload>)
    requires Injective(md5, scope) && Reflects(s, md5, scope, h) && h.phase.Loading? && size < DIGEST_SIZE
    requires size > 0 || NonePurged(h.uploads)
    requires "" !in s.files && forall e :: e in extras ==> Destination(e.fname) != PLC_BIN_FILE
    ensures var u := h.uploads[|h.uploads| - 1];
            var (s', ok) := NewPlc(s, md5, md5sum, IdOf(md5, u)[..size], extras);
            && PLC_BIN_FILE in s'.files && s'.files[PLC_BIN_FILE] == u.data && !s'.plcRun
            && (ok <==> Deliverable(md5, h.uploads, extras))
  {
    LoadingHasUploads(s, md5, scope, h);
    NewPlcVerdict(s, md5, scope, h, md5sum, IdOf(md5, h.uploads[|h.uploads| - 1])[..size], extras);
    hide NewPlc, Deliverable, NonePurged, Reflects, Destination;
  }

  // ---------------------------------------------------------------- when every extra file can be moved

  /** No destination is the source of an extra file. */
  ghost predicate SourcesApart(s: State, extras: seq<NamedUpload>) {
    forall j, k :: 0 <= j < |extras| && 0 <= k < |extras| ==> Destination(extras[j].fname) != NameFor(s, extras[k].id)
  }

  /** The sources exist, and no two extra files have the same one. */
  predicate SourcesThere(s: State, extras: seq<NamedUpload>) {
    && (forall k :: 0 <= k < |extras| ==> NameFor(s, extras[k].id) in s.files)
    && (forall j, k :: 0 <= j < k < |extras| ==> NameFor(s, extras[j].id) != NameFor(s, extras[k].id))
  }

  lemma RestApart(s: State, extras: seq<NamedUpload>)
    requires SourcesApart(s, extras) && extras != []
    ensures SourcesApart(AfterFirst(s, extras), extras[1..])
  {
    hide Destination;
    var s1 := AfterFirst(s, extras);
    forall j, k | 0 <= j < |extras| - 1 && 0 <= k < |extras| - 1
      ensures Destination(extras[1..][j].fname) != NameFor(s1, extras[1..][k].id)
    {
      NameReadsEntries(s1, s, extras[k + 1].id);
      assert extras[1..][j] == extras[j + 1] && extras[1..][k] == extras[k + 1];
    }
  }

  lemma RestThere(s: State, extras: seq<NamedUpload>)
    requires SourcesApart(s, extras) && extras != [] && NameFor(s, extras[0].id) in s.files
    ensures SourcesThere(s, extras) <==> SourcesThere(AfterFirst(s, extras), extras[1..])
  {
    hide Destination;
    var s1 := AfterFirst(s, extras);
    var first := NameFor(s, extras[0].id);
    forall k | 0 <= k < |extras| - 1
      ensures NameFor(s1, extras[1..][k].id) == NameFor(s, extras[k + 1].id)
      ensures NameFor(s, extras[k + 1].id) in s1.files
              <==> NameFor(s, extras[k + 1].id) in s.files && NameFor(s, extras[k + 1].id) != first
    {
      NameReadsEntries(s1, s, extras[k + 1].id);
    }
    hide NameFor, AfterFirst;
    if SourcesThere(s1, extras[1..]) {
      forall k | 0 <= k < |extras|
        ensures NameFor(s, extras[k].id) in s.files && (k > 0 ==> NameFor(s, extras[k].id) != first)
      {
        if k > 0 {
          assert NameFor(s1, extras[1..][k - 1].id) in s1.files;
        }
      }
      forall j, k | 0 <= j < k < |extras|
        ensures NameFor(s, extras[j].id) != NameFor(s, extras[k].id)
      {
        if j > 0 {
          assert NameFor(s1, extras[1..][j - 1].id) != NameFor(s1, extras[1..][k - 1].id);
        }
      }
    }
  }

  lemma {:induction false} AllMovedIff(s: State, extras: seq<NamedUpload>)
    requires SourcesApart(s, extras)
    ensures MoveExtras(s, extras).1 <==> SourcesThere(s, extras)
    decreases |extras|
  {
    if extras != [] && NameFor(s, extras[0].id) in s.files {
      RestApart(s, extras);
      RestThere(s, extras);
      MoveOn(s, extras);
      hide Destination, NameFor, MoveExtras, SourcesThere, SourcesApart;
      AllMovedIff(AfterFirst(s, extras), extras[1..]);
    }
  }

  lemma MoveOn(s: State, extras: seq<NamedUpload>)
    requires extras != [] && NameFor(s, extras[0].id) in s.files
    ensures MoveExtras(s, extras) == MoveExtras(AfterFirst(s, extras), extras[1..])
  {
    hide Destination, NameFor;
  }

  /** The source of an extra file exists, when the moving starts, exactly if its ID is that of an earlier upload. */
  lemma SourceExists(s: State, md5: Digest, scope: Scope, h: History, id: seq<byte>, extra: seq<byte>)
    requires Injective(md5, scope) && Reflects(s, md5, scope, h) && h.phase.Loading? && ReachesLast(s, id)
    requires "" !in s.files
    ensures var s1 := Accepted(s, id, h.uploads[|h.uploads| - 1]);
            NameFor(s1, extra) in s1.files <==> NamesEarlier(md5, h.uploads, extra)
  {
    if NamesEarlier(md5, h.uploads, extra) {
      var i: nat :| i < |h.uploads| - 1 && h.uploads[i].live && IdOf(md5, h.uploads[i]) == extra;
      EarlierSource(s, md5, scope, h, id, i);
    } else {
      OtherSource(s, md5, scope, h, id, extra);
    }
  }

  lemma AcceptedParts(s: State, id: seq<byte>, other: seq<byte>, u: Upload)
    requires s.entries != []
    ensures var n := |s.entries| - 1; Accepted(s, id, u).entries == s.entries[n := s.entries[n].(id := id)]
    ensures Accepted(s, id, u).files == Accepted(s, other, u).files
  {
  }

  /** The earlier uploads are still found, and unchanged, when NewPLC starts to move the extra files. */
  lemma EarlierSource(s: State, md5: Digest, scope: Scope, h: History, id: seq<byte>, i: nat)
    requires Injective(md5, scope) && Reflects(s, md5, scope, h) && h.phase.Loading?
    requires i < |h.uploads| - 1 && h.uploads[i].live
    ensures var s1 := Accepted(s, id, h.uploads[|h.uploads| - 1]); var u := h.uploads[i];
            && NameFor(s1, IdOf(md5, u)) == u.name && u.name in s1.files && s1.files[u.name] == u.data
            && IsTemporary(u.name)
  {
    FoundById(s, md5, scope, h, i);
    PickInFiles(s, md5, scope, h, i);
    LoadingHasUploads(s, md5, scope, h);
    var last := h.uploads[|h.uploads| - 1];
    AcceptedParts(s, id, IdOf(md5, last), last);
    hide Reflects, Injective, Accepted, IsTemporary, FindId, IdOf;
    var s1 := Accepted(s, id, last);
    FindEarlier(s.entries, s1.entries, IdOf(md5, h.uploads[i]), i);
  }

  lemma FindEarlier(entries: seq<Entry>, entries': seq<Entry>, id: seq<byte>, i: nat)
    requires |entries'| == |entries| && FindId(entries, id) == i < |entries|
    requires forall k :: 0 <= k <= i ==> entries'[k] == entries[k]
    ensures FindId(entries', id) == i
  {
    assert entries'[i].id == id;
    var k := FindId(entries', id);
    assert k <= i;
    assert entries[k].id == id;
  }

  lemma OtherSource(s: State, md5: Digest, scope: Scope, h: History, id: seq<byte>, extra: seq<byte>)
    requires Reflects(s, md5, scope, h) && h.phase.Loading? && !NamesEarlier(md5, h.uploads, extra) && "" !in s.files
    ensures var s1 := Accepted(s, id, h.uploads[|h.uploads| - 1]); NameFor(s1, extra) !in s1.files
  {
    hide IsTemporary, Distinct, Accepted;
    var n := |h.uploads| - 1;
    var s1 := Accepted(s, id, h.uploads[n]);
    LoadingNames(s, md5, scope, h, n);
    AcceptedParts(s, id, id, h.uploads[n]);
    AcceptedLacks(s, id, h.uploads[n]);
    var k := FindId(s1.entries, extra);
    assert Shows(s, md5, s.entries[n], h.uploads[n]);
    if k < n {
      assert s1.entries[k] == s.entries[k] && Shows(s, md5, s.entries[k], h.uploads[k]);
    }
  }

  lemma AcceptedLacks(s: State, id: seq<byte>, u: Upload)
    requires s.entries != [] && "" !in s.files && IsTemporary(u.name)
    ensures u.name !in Accepted(s, id, u).files && "" !in Accepted(s, id, u).files
  {
    PathsDiffer("");
  }

  lemma SourcesDiffer(s: State, md5: Digest, scope: Scope, h: History, id: seq<byte>, a: seq<byte>, b: seq<byte>)
    requires Injective(md5, scope) && Reflects(s, md5, scope, h) && h.phase.Loading? && a != b
    requires NamesEarlier(md5, h.uploads, a) && NamesEarlier(md5, h.uploads, b)
    ensures var s1 := Accepted(s, id, h.uploads[|h.uploads| - 1]); NameFor(s1, a) != NameFor(s1, b)
  {
    var i: nat :| i < |h.uploads| - 1 && h.uploads[i].live && IdOf(md5, h.uploads[i]) == a;
    var j: nat :| j < |h.uploads| - 1 && h.uploads[j].live && IdOf(md5, h.uploads[j]) == b;
    EarlierSource(s, md5, scope, h, id, i);
    EarlierSource(s, md5, scope, h, id, j);
    NamesDiffer(s, md5, scope, h, i, j);
  }

  lemma NamesDiffer(s: State, md5: Digest, scope: Scope, h: History, i: nat, j: nat)
    requires Reflects(s, md5, scope, h) && i < |h.uploads| && j < |h.uploads| && i != j
    requires h.uploads[i].live && h.uploads[j].live
    ensures h.uploads[i].name != h.uploads[j].name
  {
  }

  /** Every extra file can be moved exactly if each names an upload before the last, and no two the same. */
  lemma DeliverableSucceeds(s: State, md5: Digest, scope: Scope, h: History, id: seq<byte>, extras: seq<NamedUpload>)
    requires Injective(md5, scope) && Reflects(s, md5, scope, h) && h.phase.Loading? && ReachesLast(s, id)
    requires "" !in s.files
    ensures MoveExtras(Accepted(s, id, h.uploads[|h.uploads| - 1]), extras).1 <==> Deliverable(md5, h.uploads, extras)
  {
    LoadingHasUploads(s, md5, scope, h);
    var s1 := Accepted(s, id, h.uploads[|h.uploads| - 1]);
    hide Accepted, NameFor, NamesEarlier, Reflects, Injective, MoveExtras, Destination, ReachesLast;
    forall k | 0 <= k < |extras|
      ensures NameFor(s1, extras[k].id) in s1.files <==> NamesEarlier(md5, h.uploads, extras[k].id)
    {
      SourceExists(s, md5, scope, h, id, extras[k].id);
    }
    forall j, k | 0 <= j < k < |extras| && NamesEarlier(md5, h.uploads, extras[j].id)
                  && NamesEarlier(md5, h.uploads, extras[k].id) && extras[j].id != extras[k].id
      ensures NameFor(s1, extras[j].id) != NameFor(s1, extras[k].id)
    {
      SourcesDiffer(s, md5, scope, h, id, extras[j].id, extras[k].id);
    }
    SourcesAreApart(s, md5, scope, h, id, extras);
    AllMovedIff(s1, extras);
  }

  lemma SourcesAreApart(s: State, md5: Digest, scope: Scope, h: History, id: seq<byte>, extras: seq<NamedUpload>)
    requires Reflects(s, md5, scope, h) && h.phase.Loading?
    ensures SourcesApart(Accepted(s, id, h.uploads[|h.uploads| - 1]), extras)
  {
    LoadingHasUploads(s, md5, scope, h);
    var s1 := Accepted(s, id, h.uploads[|h.uploads| - 1]);
    AcceptedEntries(s, id, h.uploads[|h.uploads| - 1]);
    hide Accepted, NameFor, IsTemporary, Destination;
    forall j, k | 0 <= j < |extras| && 0 <= k < |extras|
      ensures Destination(extras[j].fname) != NameFor(s1, extras[k].id)
    {
      NameInTable(s, md5, scope, h, s1, extras[k].id);
      PathsDiffer(extras[j].fname);
    }
  }

  /** A name the table answers is empty or temporary. */
  lemma NameInTable(s: State, md5: Digest, scope: Scope, h: History, s1: State, id: seq<byte>)
    requires Reflects(s, md5, scope, h) && h.phase.Loading? && |s1.entries| == |s.entries|
    requires forall i :: 0 <= i < |s.entries| ==> s1.entries[i].filename == s.entries[i].filename
    ensures NameFor(s1, id) == "" || IsTemporary(NameFor(s1, id))
  {
    var k := FindId(s1.entries, id);
    if k < |s1.entries| {
      assert Shows(s, md5, s.entries[k], h.uploads[k]);
      LoadingNames(s, md5, scope, h, k);
    }
  }

  // ---------------------------------------------------------------- extra files

  /** The extra files ask for distinct uploads `names[k]` holding `datas[k]`, and for distinct destinations. */
  ghost predicate Asks(s: State, extras: seq<NamedUpload>, names: seq<string>, datas: seq<seq<byte>>) {
    && |names| == |datas| == |extras|
    && (forall k :: 0 <= k < |extras| ==>
          NameFor(s, extras[k].id) == names[k] && names[k] in s.files && s.files[names[k]] == datas[k])
    && (forall j, k :: 0 <= j < k < |extras| ==>
          names[j] != names[k] && Destination(extras[j].fname) != Destination(extras[k].fname))
    && (forall j, k :: 0 <= j < |extras| && 0 <= k < |extras| ==> Destination(extras[j].fname) != names[k])
  }

  function AfterFirst(s: State, extras: seq<NamedUpload>): State
    requires extras != []
  {
    s.(files := Rename(s.files, NameFor(s, extras[0].id), Destination(extras[0].fname)).0)
  }

  lemma AsksRest(s: State, extras: seq<NamedUpload>, names: seq<string>, datas: seq<seq<byte>>)
    requires Asks(s, extras, names, datas) && extras != []
    ensures Asks(AfterFirst(s, extras), extras[1..], names[1..], datas[1..])
    ensures MoveExtras(s, extras) == MoveExtras(AfterFirst(s, extras), extras[1..])
  {
    hide Destination;
    var s1 := AfterFirst(s, extras);
    forall k | 0 <= k < |extras| - 1
      ensures NameFor(s1, extras[1..][k].id) == names[1..][k] && names[1..][k] in s1.files
              && s1.files[names[1..][k]] == datas[1..][k]
    {
      assert NameFor(s1, extras[k + 1].id) == NameFor(s, extras[k + 1].id);
    }
  }

  lemma {:induction false} AllMoved(s: State, extras: seq<NamedUpload>, names: seq<string>, datas: seq<seq<byte>>)
    requires Asks(s, extras, names, datas)
    ensures MoveExtras(s, extras).1
    decreases |extras|
  {
    if extras != [] {
      AsksRest(s, extras, names, datas);
      AllMoved(AfterFirst(s, extras), extras[1..], names[1..], datas[1..]);
    }
  }

  /** A file that is no extra file's source or destination is left alone. */
  lemma {:induction false} Untouched(s: State, extras: seq<NamedUpload>, f: string)
    requires f in s.files && forall e :: e in extras ==> NameFor(s, e.id) != f && Destination(e.fname) != f
    ensures f in MoveExtras(s, extras).0.files && MoveExtras(s, extras).0.files[f] == s.files[f]
    decreases |extras|
  {
    hide Destination;
    if extras != [] {
      var s1 := AfterFirst(s, extras);
      forall e | e in extras[1..]
        ensures NameFor(s1, e.id) != f && Destination(e.fname) != f
      {
        assert NameFor(s1, e.id) == NameFor(s, e.id);
      }
      Untouched(s1, extras[1..], f);
    }
  }

  lemma FirstUntouched(s: State, extras: seq<NamedUpload>, names: seq<string>, datas: seq<seq<byte>>)
    requires Asks(s, extras, names, datas) && extras != []
    ensures var dest := Destination(extras[0].fname); var r := MoveExtras(AfterFirst(s, extras), extras[1..]).0;
            dest in r.files && r.files[dest] == datas[0]
  {
    hide Destination, MoveExtras;
    var s1 := AfterFirst(s, extras);
    forall e | e in extras[1..]
      ensures NameFor(s1, e.id) != Destination(extras[0].fname) && Destination(e.fname) != Destination(extras[0].fname)
    {
      var j :| 0 <= j < |extras| - 1 && e == extras[j + 1];
      NameReadsEntries(s1, s, e.id);
    }
    Untouched(s1, extras[1..], Destination(extras[0].fname));
  }

  /** Every extra file then ends up holding exactly its own upload. */
  lemma {:induction false} ExtraInstalled(s: State, extras: seq<NamedUpload>, names: seq<string>, datas: seq<seq<byte>>,
                                          k: nat)
    requires Asks(s, extras, names, datas) && k < |extras|
    ensures |datas| == |extras|
    ensures var s' := MoveExtras(s, extras).0; var dest := Destination(extras[k].fname);
            dest in s'.files && s'.files[dest] == datas[k]
    decreases |extras|
  {
    hide Destination, MoveExtras, AfterFirst, NameFor;
    AsksRest(s, extras, names, datas);
    if k == 0 {
      FirstUntouched(s, extras, names, datas);
    } else {
      ExtraInstalled(AfterFirst(s, extras), extras[1..], names[1..], datas[1..], k - 1);
    }
  }

  lemma ExtrasInstalled(s: State, extras: seq<NamedUpload>, names: seq<string>, datas: seq<seq<byte>>)
    requires Asks(s, extras, names, datas)
    ensures var (s', ok) := MoveExtras(s, extras);
            ok && |datas| == |extras| && forall k :: 0 <= k < |extras| ==>
              Destination(extras[k].fname) in s'.files && s'.files[Destination(extras[k].fname)] == datas[k]
  {
    hide Destination, MoveExtras;
    AllMoved(s, extras, names, datas);
    forall k | 0 <= k < |extras|
      ensures var s' := MoveExtras(s, extras).0;
              Destination(extras[k].fname) in s'.files && s'.files[Destination(extras[k].fname)] == datas[k]
    {
      ExtraInstalled(s, extras, names, datas, k);
    }
  }

  /** The extra files name distinct earlier uploads, `picks`, and distinct destinations other than the PLC's own files.
      */
  ghost predicate ExtrasPick(md5: Digest, uploads: seq<Upload>, extras: seq<NamedUpload>, picks: seq<nat>) {
    && |picks| == |extras|
    && (forall k :: 0 <= k < |extras| ==>
          picks[k] < |uploads| - 1 && uploads[picks[k]].live && extras[k].id == IdOf(md5, uploads[picks[k]])
          && Destination(extras[k].fname) != PLC_BIN_FILE && Destination(extras[k].fname) != PLC_MD5_FILE)
    && (forall j, k :: 0 <= j < k < |extras| ==>
          picks[j] != picks[k] && Destination(extras[j].fname) != Destination(extras[k].fname))
  }

  lemma PickInFiles(s: State, md5: Digest, scope: Scope, h: History, i: nat)
    requires Reflects(s, md5, scope, h) && h.phase.Loading? && i < |h.uploads| - 1 && h.uploads[i].live
    ensures var u := h.uploads[i]; var last := h.uploads[|h.uploads| - 1];
            var s1 := Accepted(s, IdOf(md5, last), last);
            u.name in s1.files && s1.files[u.name] == u.data && IsTemporary(u.name)
  {
    assert Shows(s, md5, s.entries[i], h.uploads[i]);
    assert h.uploads[i].name != h.uploads[|h.uploads| - 1].name;
    hide IsTemporary, Distinct;
    PathsDiffer("");
  }

  predicate InRange(uploads: seq<Upload>, picks: seq<nat>) {
    forall k :: 0 <= k < |picks| ==> picks[k] < |uploads|
  }

  function NamesOf(uploads: seq<Upload>, picks: seq<nat>): (names: seq<string>)
    requires InRange(uploads, picks)
    ensures |names| == |picks| && forall k :: 0 <= k < |picks| ==> names[k] == uploads[picks[k]].name
  {
    seq(|picks|, k requires 0 <= k < |picks| => uploads[picks[k]].name)
  }

  function DatasOf(uploads: seq<Upload>, picks: seq<nat>): (datas: seq<seq<byte>>)
    requires InRange(uploads, picks)
    ensures |datas| == |picks| && forall k :: 0 <= k < |picks| ==> datas[k] == uploads[picks[k]].data
  {
    seq(|picks|, k requires 0 <= k < |picks| => uploads[picks[k]].data)
  }

  lemma PicksAreAsked(s: State, md5: Digest, scope: Scope, h: History, extras: seq<NamedUpload>, picks: seq<nat>)
    requires Injective(md5, scope) && Reflects(s, md5, scope, h) && h.phase.Loading?
    requires ExtrasPick(md5, h.uploads, extras, picks)
    ensures var last := h.uploads[|h.uploads| - 1];
            Asks(Accepted(s, IdOf(md5, last), last), extras, NamesOf(h.uploads, picks), DatasOf(h.uploads, picks))
  {
    hide Accepted, Destination, IsTemporary, NameFor, Injective;
    forall k | 0 <= k < |extras|
      ensures var u := h.uploads[picks[k]]; var last := h.uploads[|h.uploads| - 1];
              var s1 := Accepted(s, IdOf(md5, last), last);
              && NameFor(s1, extras[k].id) == u.name && u.name in s1.files && s1.files[u.name] == u.data
              && IsTemporary(u.name)
    {
      EarlierSource(s, md5, scope, h, IdOf(md5, h.uploads[|h.uploads| - 1]), picks[k]);
    }
    forall j | 0 <= j < |extras|
      ensures !IsTemporary(Destination(extras[j].fname))
    {
      PathsDiffer(extras[j].fname);
    }
  }

  lemma ExtrasHeld(s: State, md5: Digest, scope: Scope, h: History, extras: seq<NamedUpload>, picks: seq<nat>)
    requires Injective(md5, scope) && Reflects(s, md5, scope, h) && h.phase.Loading?
    requires ExtrasPick(md5, h.uploads, extras, picks)
    ensures var u := h.uploads[|h.uploads| - 1];
            var (s', ok) := MoveExtras(Accepted(s, IdOf(md5, u), u), extras);
            ok && forall k :: 0 <= k < |extras| ==>
              Destination(extras[k].fname) in s'.files
              && s'.files[Destination(extras[k].fname)] == h.uploads[picks[k]].data
  {
    var u := h.uploads[|h.uploads| - 1];
    PicksAreAsked(s, md5, scope, h, extras, picks);
    hide Accepted, Destination, MoveExtras, Reflects, Injective, Asks, IdOf;
    ExtrasInstalled(Accepted(s, IdOf(md5, u), u), extras, NamesOf(h.uploads, picks), DatasOf(h.uploads, picks));
  }

  /** A whole transfer: given the last upload's ID and extra files that name earlier uploads, NewPLC succeeds, installs
      the last upload as the PLC program, and every extra file ends up holding exactly its own upload. */
  lemma TransferInstalls(s: State, md5: Digest, scope: Scope, h: History, md5sum: seq<byte>, extras: seq<NamedUpload>,
                         picks: seq<nat>)
    requires Injective(md5, scope) && Reflects(s, md5, scope, h) && h.phase.Loading?
    requires ExtrasPick(md5, h.uploads, extras, picks)
    ensures var u := h.uploads[|h.uploads| - 1];
            var (s', ok) := NewPlc(s, md5, md5sum, IdOf(md5, u), extras);
            && ok && s'.reload
            && PLC_BIN_FILE in s'.files && s'.files[PLC_BIN_FILE] == u.data
            && PLC_MD5_FILE in s'.files && s'.files[PLC_MD5_FILE] == md5sum
            && forall k :: 0 <= k < |extras| ==>
                 Destination(extras[k].fname) in s'.files
                 && s'.files[Destination(extras[k].fname)] == h.uploads[picks[k]].data
  {
    hide Accepted, Destination, IsTemporary, NewPlc, MoveExtras, Injective, Matches, ReachesLast, IdOf, Distinct, Shows;
    LastReached(s, md5, scope, h);
    NewPlcEffect(s, md5, scope, h, md5sum, IdOf(md5, h.uploads[|h.uploads| - 1]), extras);
    assert forall e :: e in extras ==> Destination(e.fname) != PLC_BIN_FILE;
    ProgramKept(s, md5, scope, h, IdOf(md5, h.uploads[|h.uploads| - 1]), extras);
    ExtrasHeld(s, md5, scope, h, extras, picks);
    PathsDiffer("");
  }

  lemma LastReached(s: State, md5: Digest, scope: Scope, h: History)
    requires Injective(md5, scope) && Reflects(s, md5, scope, h) && h.phase.Loading?
    ensures var id := IdOf(md5, h.uploads[|h.uploads| - 1]); ReachesLast(s, id) && Matches(id, id)
  {
    var u := h.uploads[|h.uploads| - 1];
    NewIdIsFresh(md5, scope, h.uploads, u);
    EarlierIds(s, md5, scope, h, IdOf(md5, u));
    assert IdOf(md5, u)[..|IdOf(md5, u)|] == IdOf(md5, u);
  }

  // ---------------------------------------------------------------- where it does not hold

  lemma EmptyIdFindsPurged(s: State, md5: Digest, scope: Scope, h: History, i: nat)
    requires Injective(md5, scope) && Reflects(s, md5, scope, h) && h.phase.Loading?
    requires i < |h.uploads| - 1 && !h.uploads[i].live
    ensures Finish(s, []) == UpdateLast(s, []) && NameFor(UpdateLast(s, []), []) == ""
  {
    hide IsTemporary, Distinct;
    assert Shows(s, md5, s.entries[i], h.uploads[i]);
    var s1 := UpdateLast(s, []);
    var j := FindId(s1.entries, []);
    assert s1.entries[i].id == [];
    assert j <= i && s1.entries[j] == s.entries[j];
    assert Shows(s, md5, s.entries[j], h.uploads[j]);
  }

  /** The state in which NewPLC starts to move the extra files, given the empty ID and a table with a purged entry. */
  function EmptyIdAccepted(s: State): State {
    UpdateLast(s, []).(digesting := false, plcRun := false,
      files := if PLC_MD5_FILE in s.files then s.files - {PLC_BIN_FILE} else s.files)
  }

  lemma EmptyIdEffect(s: State, md5: Digest, scope: Scope, h: History, md5sum: seq<byte>, i: nat,
      extras: seq<NamedUpload>)
    requires Injective(md5, scope) && Reflects(s, md5, scope, h) && h.phase.Loading?
    requires i < |h.uploads| - 1 && !h.uploads[i].live && "" !in s.files
    ensures var (moved, done) := MoveExtras(EmptyIdAccepted(s), extras);
            NewPlc(s, md5, md5sum, [], extras)
            == if done then (moved.(files := moved.files[PLC_MD5_FILE := md5sum], reload := true), true)
                else (moved, false)
  {
    EmptyIdFindsPurged(s, md5, scope, h, i);
    LastIsHashed(s, md5, scope, h);
    PathsDiffer("");
    var s2 := UpdateLast(s, []).(digesting := false);
    NameReadsEntries(s2, UpdateLast(s, []), []);
    assert Install(s2.files, "") == EmptyIdAccepted(s).files;
    assert Matches(md5(s.hashed), []);
    hide Finish, NameFor, MoveExtras, Install, Injective, Reflects, Matches;
  }

  lemma EmptyIdExtras(s: State, md5: Digest, scope: Scope, h: History, extras: seq<NamedUpload>)
    requires Reflects(s, md5, scope, h) && h.phase.Loading?
    requires forall e :: e in extras ==> Destination(e.fname) != PLC_BIN_FILE
    ensures var files := MoveExtras(EmptyIdAccepted(s), extras).0.files;
            && (PLC_MD5_FILE in s.files ==> PLC_BIN_FILE !in files)
            && (PLC_MD5_FILE !in s.files && PLC_BIN_FILE in s.files ==>
                  PLC_BIN_FILE in files && files[PLC_BIN_FILE] == s.files[PLC_BIN_FILE])
  {
    var s3 := EmptyIdAccepted(s);
    forall e | e in extras
      ensures NameFor(s3, e.id) != PLC_BIN_FILE
    {
      NamesSpareProgram(s, md5, scope, h, s3, e.id);
    }
    hide NameFor, MoveExtras, Destination, Reflects;
    if PLC_BIN_FILE in s3.files {
      Untouched(s3, extras, PLC_BIN_FILE);
    } else {
      NotCreated(s3, extras, PLC_BIN_FILE);
    }
  }

  /** With a purged entry in the table the empty ID passes the check but installs nothing, and an installed program is
      deleted if the MD5 file exists; with no extra files the call reports success. */
  lemma EmptyIdAfterPurge(s: State, md5: Digest, scope: Scope, h: History, md5sum: seq<byte>, i: nat,
                          extras: seq<NamedUpload>)
    requires Injective(md5, scope) && Reflects(s, md5, scope, h) && h.phase.Loading?
    requires i < |h.uploads| - 1 && !h.uploads[i].live && "" !in s.files
    requires forall e :: e in extras ==> Destination(e.fname) != PLC_BIN_FILE
    ensures var (s', ok) := NewPlc(s, md5, md5sum, [], extras);
            && !s'.plcRun && (extras == [] ==> ok && s'.reload)
            && (PLC_MD5_FILE in s.files ==> PLC_BIN_FILE !in s'.files)
            && (PLC_MD5_FILE !in s.files && PLC_BIN_FILE in s.files ==>
                  PLC_BIN_FILE in s'.files && s'.files[PLC_BIN_FILE] == s.files[PLC_BIN_FILE])
  {
    EmptyIdEffect(s, md5, scope, h, md5sum, i, extras);
    EmptyIdExtras(s, md5, scope, h, extras);
    MoveExtrasFrame(EmptyIdAccepted(s), extras);
    NoExtras(EmptyIdAccepted(s));
    PathsDiffer("");
    assert !EmptyIdAccepted(s).plcRun;
    hide MoveExtras, Destination, Injective, Reflects, NewPlc, EmptyIdAccepted, IsTemporary;
  }

  lemma NoExtras(s: State)
    ensures MoveExtras(s, []) == (s, true)
  {
  }

  lemma {:induction false} NotCreated(s: State, extras: seq<NamedUpload>, f: string)
    requires f !in s.files && forall e :: e in extras ==> Destination(e.fname) != f
    ensures f !in MoveExtras(s, extras).0.files
    decreases |extras|
  {
    hide Destination, NameFor;
    if extras != [] {
      NotCreated(AfterFirst(s, extras), extras[1..], f);
    }
  }

  lemma NameReadsEntries(s: State, t: State, id: seq<byte>)
    requires s.entries == t.entries
    ensures NameFor(s, id) == NameFor(t, id)
  {
  }

  lemma FullSeed(s: State, md5: Digest, scope: Scope, h: History, name: string, seed: seq<byte>)
    requires Injective(md5, scope) && Reflects(s, md5, scope, h) && h.phase.Loading? && |h.uploads| == MAX_FILE_UPLOADS
    ensures var u := h.uploads[|h.uploads| - 1];
            && s.entries[|h.uploads| - 1].file == Some(u.name)
            && Seed(s, md5, name, seed) == s.(hashed := seed, digesting := true, files := s.files[name := []],
                                              open := s.open - {u.name} + {name})
  {
    assert Shows(s, md5, s.entries[|h.uploads| - 1], h.uploads[|h.uploads| - 1]);
    FinishCloses(s, md5, scope, h);
    hide Finish, FindId, IsTemporary, Distinct, Injective;
  }

  lemma ClosedFileFaults(s: State, md5: Digest, chunk: seq<byte>, name: string)
    requires ReachesLast(s, md5(s.hashed + chunk)) && s.entries[|s.entries| - 1].file == Some(name) && name !in s.open
    ensures Append(s, md5, chunk).0.fault
  {
    LastFound(s.(hashed := s.hashed + chunk, fault := s.fault || !s.digesting), md5(s.hashed + chunk));
    hide FindId, FileFor, UpdateLast;
  }

  lemma OtherSeedOtherId(md5: Digest, scope: Scope, uploads: seq<Upload>, name: string, seed: seq<byte>,
      data: seq<byte>)
    requires Injective(md5, scope) && Distinct(scope, uploads) && FreshSeed(scope, uploads, name, seed)
    requires seed + data in scope.hashes
    ensures !NamesEarlier(md5, uploads, md5(seed + data))
  {
    hide IsTemporary;
    SeedDistinct(scope, uploads, name, seed);
    var more := uploads + [Upload(name, seed, [], true)];
    NewIdIsFresh(md5, scope, more, Upload(name, seed, data, true));
    hide Injective, Distinct, FreshSeed;
    forall i | 0 <= i < |uploads| - 1 && uploads[i].live
      ensures IdOf(md5, uploads[i]) != md5(seed + data)
    {
      assert more[i] == uploads[i];
    }
  }

  lemma LastNameDiffers(s: State, md5: Digest, scope: Scope, h: History, name: string, seed: seq<byte>)
    requires Reflects(s, md5, scope, h) && h.phase.Loading? && FreshSeed(scope, h.uploads, name, seed)
    ensures h.uploads[|h.uploads| - 1].name != name
  {
  }

  /** With 20 uploads since boot a further seed closes the last upload's file but is not entered, and the next chunk is
      written to that closed file. */
  lemma FullTableFaults(s: State, md5: Digest, scope: Scope, h: History, name: string, seed: seq<byte>,
      chunk: seq<byte>)
    requires Injective(md5, scope) && Reflects(s, md5, scope, h) && h.phase.Loading? && |h.uploads| == 20
    requires FreshSeed(scope, h.uploads, name, seed) && seed + chunk in scope.hashes
    ensures Append(Seed(s, md5, name, seed), md5, chunk).0.fault
  {
    FullSeed(s, md5, scope, h, name, seed);
    OtherSeedOtherId(md5, scope, h.uploads, name, seed, chunk);
    EarlierIds(s, md5, scope, h, md5(seed + chunk));
    hide Seed, Append, NamesEarlier, FreshSeed;
    assert h.uploads[|h.uploads| - 1].name != name by {
      LastNameDiffers(s, md5, scope, h, name, seed);
    }
    ClosedFileFaults(Seed(s, md5, name, seed), md5, chunk, h.uploads[|h.uploads| - 1].name);
  }

  /** A purged table: no entry has a file or a name. */
  predicate Blank(s: State) {
    forall i :: 0 <= i < |s.entries| ==> s.entries[i].file.None? && s.entries[i].filename == ""
  }

  /** A purge leaves a blank table of the same length. */
  lemma PurgeBlanks(s: State)
    ensures Blank(Purge(s)) && |Purge(s).entries| == |s.entries|
  {
  }

  /** In a full blank table a seed opens a file that no entry leads to. */
  lemma BlankSeed(s: State, md5: Digest, name: string, seed: seq<byte>)
    requires Blank(s) && |s.entries| == MAX_FILE_UPLOADS
    ensures Seed(s, md5, name, seed) == s.(hashed := seed, digesting := true, files := s.files[name := []],
                                           open := s.open + {name})
  {
  }

  /** In a blank table a chunk is answered with status 3 and stored nowhere. */
  lemma BlankAppend(s: State, md5: Digest, chunk: seq<byte>)
    requires Blank(s)
    ensures var (s', status, _) := Append(s, md5, chunk);
            && status == 3 && s'.files == s.files && s'.fault == (s.fault || !s.digesting)
            && s'.digesting == s.digesting
            && Blank(s') && |s'.entries| == |s.entries|
  {
    hide FindId;
  }

  lemma BlankEffect(s: State, md5: Digest, md5sum: seq<byte>, id: seq<byte>, extras: seq<NamedUpload>)
    requires Blank(s) && "" !in s.files
    ensures var (s', ok) := NewPlc(s, md5, md5sum, id, extras);
            var left := if id <= md5(s.hashed) then Install(s.files, "") else s.files;
            && ok == (id <= md5(s.hashed) && extras == [])
            && s'.files == if ok then left[PLC_MD5_FILE := md5sum] else left
  {
    hide IsTemporary, Destination, FindId;
    MatchesIsPrefix(md5(s.hashed), id);
    BlankNames(s, id);
    var s2 := UpdateLast(s, id).(digesting := false, fault := s.fault || !s.digesting);
    NameReadsEntries(s2, UpdateLast(s, id), id);
    NothingToInstall(s.files);
    assert s2.files == s.files;
    hide Finish, NameFor, UpdateLast, Install, MoveExtras, Matches, Blank;
    var s3 := s2.(plcRun := false, files := Install(s2.files, ""));
    BlankKept(UpdateLast(s, id), s3);
    BlankMoves(s3, extras);
  }

  /** In a blank table NewPLC installs nothing, whatever it is given: it reports success for a prefix of the digest and
      no extra files, and the old program is then deleted if the MD5 file exists. */
  lemma BlankNewPlc(s: State, md5: Digest, md5sum: seq<byte>, id: seq<byte>, extras: seq<NamedUpload>)
    requires Blank(s) && "" !in s.files
    ensures var (s', ok) := NewPlc(s, md5, md5sum, id, extras);
            && (ok <==> id <= md5(s.hashed) && extras == [])
            && (PLC_BIN_FILE in s'.files ==> PLC_BIN_FILE in s.files && s'.files[PLC_BIN_FILE] == s.files[PLC_BIN_FILE])
            && (ok && PLC_MD5_FILE in s.files ==> PLC_BIN_FILE !in s'.files)
  {
    BlankEffect(s, md5, md5sum, id, extras);
    NothingToInstall(s.files);
    PathsDiffer("");
    hide NewPlc, Install, Blank, IsTemporary, Destination;
  }

  lemma NothingToInstall(files: map<string, seq<byte>>)
    requires "" !in files
    ensures var left := Install(files, "");
            && "" !in left && (PLC_MD5_FILE in files ==> PLC_BIN_FILE !in left)
            && (PLC_BIN_FILE in left ==> PLC_BIN_FILE in files && left[PLC_BIN_FILE] == files[PLC_BIN_FILE])
  {
  }

  lemma BlankMoves(s: State, extras: seq<NamedUpload>)
    requires Blank(s) && "" !in s.files
    ensures MoveExtras(s, extras) == (s, extras == [])
  {
    hide Destination;
    if extras != [] {
      BlankNames(s, extras[0].id);
    }
  }

  lemma BlankNames(s: State, id: seq<byte>)
    requires Blank(s)
    ensures Finish(s, id) == UpdateLast(s, id) && NameFor(s, id) == "" && Blank(UpdateLast(s, id))
    ensures NameFor(UpdateLast(s, id), id) == ""
  {
    hide FindId;
  }

  /** Purging does not help a full table: once it is purged, no later run of purges, seeds and chunks stores a byte. */
  lemma {:induction false} FullTableStoresNothing(s: State, md5: Digest, events: seq<Event>)
    requires Blank(s) && |s.entries| == 20 && forall e :: e in events ==> !e.NewEvent?
    ensures var s' := Run(s, md5, events);
            && Blank(s') && |s'.entries| == MAX_FILE_UPLOADS
            && forall f :: f in s'.files ==> s'.files[f] == [] || (f in s.files && s'.files[f] == s.files[f])
    decreases |events|
  {
    if events != [] {
      var before := events[..|events| - 1];
      FullTableStoresNothing(s, md5, before);
      var b := Run(s, md5, before);
      hide Blank, Seed, Append, IsTemporary;
      assert events[|events| - 1] in events;
      match events[|events| - 1]
      case PurgeEvent => PurgeBlanks(b);
      case SeedEvent(name, seed) =>
        BlankSeed(b, md5, name, seed);
        BlankKept(b, Seed(b, md5, name, seed));
      case AppendEvent(chunk) => BlankAppend(b, md5, chunk);
    }
  }

  lemma BlankKept(s: State, t: State)
    requires Blank(s) && t.entries == s.entries
    ensures Blank(t)
  {
  }

  /** With 20 uploads since boot and none open, a further upload is accepted without complaint, but its chunks are
      answered with status 3 and its file stays empty. Together with the open case: fewer than 20 uploads since boot is
      what an upload needs. */
  lemma FullTableRefuses(s: State, md5: Digest, scope: Scope, h: History, name: string, seed: seq<byte>,
      chunk: seq<byte>)
    requires Reflects(s, md5, scope, h) && h.phase.Idle? && |h.uploads| == 20
    ensures var s1 := Seed(s, md5, name, seed);
            var (s2, status, _) := Append(s1, md5, chunk);
            && s1.entries == s.entries && status == 3 && !s2.fault
            && name in s2.files && s2.files[name] == []
  {
    IdleIsBlank(s, md5, scope, h);
    BlankSeed(s, md5, name, seed);
    hide Blank, Seed, Append;
    BlankKept(s, Seed(s, md5, name, seed));
    BlankAppend(Seed(s, md5, name, seed), md5, chunk);
    NotYetFaulty(s, md5, scope, h);
    hide Reflects;
  }

  lemma IdleIsBlank(s: State, md5: Digest, scope: Scope, h: History)
    requires Reflects(s, md5, scope, h) && h.phase.Idle?
    ensures Blank(s) && |s.entries| == |h.uploads|
  {
    forall i | 0 <= i < |s.entries|
      ensures s.entries[i] == EMPTY
    {
      assert Shows(s, md5, s.entries[i], h.uploads[i]);
    }
  }

  /** The digest is finished, and the file of the last entry, which has this ID, is closed. */
  predicate IsSpent(s: State, id: seq<byte>) {
    && !s.digesting && ReachesLast(s, id)
    && var last := s.entries[|s.entries| - 1];
       last.id == id && last.file.Some? && last.file.value !in s.open
  }

  lemma SpentState(s: State, md5: Digest, scope: Scope, h: History, md5sum: seq<byte>, id: seq<byte>,
                   extras: seq<NamedUpload>)
    requires Injective(md5, scope) && Reflects(s, md5, scope, h) && h.phase.Loading?
    requires |id| == DIGEST_SIZE && !NamesEarlier(md5, h.uploads, id)
    ensures IsSpent(NewPlc(s, md5, md5sum, id, extras).0, id)
  {
    hide Finish, FindId, NameFor, Reflects, Injective, Matches, NamesEarlier, Install, MoveExtras, IsSpent;
    LastCloses(s, md5, scope, h, id);
    var s1 := Finish(s, id);
    var s2 := s1.(digesting := false, fault := s1.fault || !s1.digesting);
    SpentOnly(s1, s2, id);
    var s3 := s2.(plcRun := false, files := Install(s2.files, NameFor(s2, id)));
    MoveExtrasFrame(s3, extras);
    SpentOnly(s1, NewPlc(s, md5, md5sum, id, extras).0, id);
  }

  /** Closing the last upload leaves it in the table with the given ID and its file closed. */
  lemma LastCloses(s: State, md5: Digest, scope: Scope, h: History, id: seq<byte>)
    requires Injective(md5, scope) && Reflects(s, md5, scope, h) && h.phase.Loading?
    requires |id| == DIGEST_SIZE && !NamesEarlier(md5, h.uploads, id)
    ensures IsSpent(Finish(s, id).(digesting := false), id)
  {
    hide IsTemporary, Distinct, Injective, NamesEarlier;
    var n := |h.uploads| - 1;
    assert Shows(s, md5, s.entries[n], h.uploads[n]);
    EarlierIds(s, md5, scope, h, id);
    LastFound(s, id);
    assert Finish(s, id) == s.(entries := s.entries[n := s.entries[n].(id := id)],
        open := s.open - {h.uploads[n].name});
  }

  lemma SpentOnly(s: State, s': State, id: seq<byte>)
    requires IsSpent(s.(digesting := false), id)
    requires s'.entries == s.entries && s'.open == s.open && !s'.digesting
    ensures IsSpent(s', id)
  {
  }

  lemma SpentFaults(s: State, md5: Digest, name: string, seed: seq<byte>, chunk: seq<byte>, id: seq<byte>)
    requires IsSpent(s, id)
    ensures !s.digesting && Seed(s, md5, name, seed).fault && Append(s, md5, chunk).0.fault
  {
    LastFound(s, id);
  }

  /** Once NewPLC has run with a 16-byte ID, every call but a purge, whatever its arguments, uses the closed file or the
      finished digest. */
  lemma SpentUploadFaults(s: State, md5: Digest, scope: Scope, h: History, md5sum: seq<byte>, id: seq<byte>,
                          extras: seq<NamedUpload>, e: Event)
    requires Injective(md5, scope) && Reflects(s, md5, scope, h) && h.phase.Loading?
    requires |id| == DIGEST_SIZE && !NamesEarlier(md5, h.uploads, id)
    ensures Step(NewPlc(s, md5, md5sum, id, extras).0, md5, e).fault <==> !e.PurgeEvent?
  {
    SpentState(s, md5, scope, h, md5sum, id, extras);
    NewReflects(s, md5, scope, h, md5sum, id, extras);
    var s' := NewPlc(s, md5, md5sum, id, extras).0;
    SpentFaults(s', md5, "", [], [], id);
    hide IsSpent, Reflects, Injective, Finish, Seed, Append, ReachesLast, NamesEarlier, Matches, NameFor, NewPlc;
    match e {
      case PurgeEvent => NotYetFaulty(s', md5, scope, h.(phase := Spent));
      case SeedEvent(name, seed) => SpentFaults(s', md5, name, seed, [], id);
      case AppendEvent(chunk) => SpentFaults(s', md5, "", [], chunk, id);
      case NewEvent(sum, other, more) => NewPlcFaults(s', md5, sum, other, more);
    }
  }

  lemma NotYetFaulty(s: State, md5: Digest, scope: Scope, h: History)
    requires Reflects(s, md5, scope, h)
    ensures !s.fault
  {
  }
}
