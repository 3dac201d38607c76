/** The chunked upload: a table of uploads addressed by the digest of what was received
    (app/src/plc_rpc.c:236-470, 525-669). The digest is a parameter of the model. */
module UploadSpec {
  import opened Bytes
  import opened Wrappers

  type Digest = seq<byte> -> seq<byte>

  const MAX_FILE_UPLOADS: nat := 20
  const DIGEST_SIZE: nat := 16
  const PLC_BIN_FILE := "/lfs:/plc/plc.bin"
  const PLC_MD5_FILE := "/lfs:/plc/md5.txt"
  const PLC_ROOT_PATH := "/lfs:/plc/"
  const HTTP_ROOT := "/lfs:/www/"
  const TMP_FILE_PATH := "/lfs:/tmp/"
  const TMP_FILE_EXTENSION := ".tmp"

  /** `file` is the FILE the upload writes, named after its path; it stays in the table when the file is closed. */
  datatype Entry = Entry(filename: string, id: seq<byte>, file: Option<string>)

  const EMPTY := Entry("", [], None)

  /** An extra file of NewPLC: an upload, and the name it is to get. */
  datatype NamedUpload = NamedUpload(fname: string, id: seq<byte>)

  /** `hashed` is what the running digest has received while `digesting`; `fault` records a use of a closed file or of a
      digest that is not running. */
  datatype State = State(entries: seq<Entry>, hashed: seq<byte>, digesting: bool, files: map<string, seq<byte>>,
                         open: set<string>, plcRun: bool, reload: bool, fault: bool)

  // ---------------------------------------------------------------- the table

  /** The index of the first entry with this ID, or the number of entries. */
  function FindId(entries: seq<Entry>, id: seq<byte>): (i: nat)
    ensures i <= |entries|
    ensures i < |entries| ==> entries[i].id == id
    ensures forall j :: 0 <= j < i ==> entries[j].id != id
  {
    if entries == [] then 0
    else if entries[0].id == id then 0
    else 1 + FindId(entries[1..], id)
  }

  function FileFor(s: State, id: seq<byte>): Option<string> {
    var i := FindId(s.entries, id);
    if i < |s.entries| then s.entries[i].file else None
  }

  function UpdateLast(s: State, id: seq<byte>): State {
    var n := |s.entries|;
    if n > 0 then s.(entries := s.entries[n - 1 := s.entries[n - 1].(id := id)]) else s
  }

  /** finish_fileUpload. */
  function Finish(s: State, id: seq<byte>): State {
    var s1 := UpdateLast(s, id);
    match FileFor(s1, id)
    case None => s1
    case Some(f) => s1.(open := s1.open - {f}, fault := s1.fault || f !in s1.open)
  }

  /** prepare_fileUpload: finishes the last upload if it has a file, and enters the new one if there is room. */
  function Prepare(s: State, name: string, id: seq<byte>): State {
    var n := |s.entries|;
    var s1 := if n > 0 && s.entries[n - 1].file.Some? then Finish(s, s.entries[n - 1].id) else s;
    var s2 := s1.(files := s1.files[name := []], open := s1.open + {name});
    if n < MAX_FILE_UPLOADS then s2.(entries := s2.entries + [Entry(name, id, Some(name))]) else s2
  }

  // ---------------------------------------------------------------- the operations

  predicate IsTemporary(name: string) {
    |name| >= |TMP_FILE_PATH| && name[..|TMP_FILE_PATH|] == TMP_FILE_PATH
    && exists i {:trigger name[i..]} :: 0 <= i <= |name| && TMP_FILE_EXTENSION <= name[i..]
  }

  /** delete_tmp_files. */
  function WithoutTemporary(files: map<string, seq<byte>>): map<string, seq<byte>> {
    map name | name in files && !IsTemporary(name) :: files[name]
  }

  /** PurgeBlobs: the entries are cleared, but their number is kept. */
  function Purge(s: State): State {
    s.(files := WithoutTemporary(s.files), entries := seq(|s.entries|, _ => EMPTY))
  }

  /** SeedBlob, for a temporary file called `name`. */
  function Seed(s: State, md5: Digest, name: string, seed: seq<byte>): State {
    Prepare(s, name, md5(seed)).(hashed := seed, digesting := true)
  }

  /** AppendChunkToBlob; the blob ID it is given is not looked at. */
  function Append(s: State, md5: Digest, chunk: seq<byte>): (r: (State, nat, seq<byte>)) {
    var s1 := s.(hashed := s.hashed + chunk, fault := s.fault || !s.digesting);
    var newId := md5(s1.hashed);
    var s2 := UpdateLast(s1, newId);
    match FileFor(s2, newId)
    case None => (s2, 3, newId)
    case Some(f) =>
      if f in s2.open && f in s2.files then (s2.(files := s2.files[f := s2.files[f] + chunk]), 0, newId)
      else (s2.(fault := true), 4, newId)
  }

  predicate IsWebFile(fname: string) {
    Extension(fname) in [".htm", ".html", ".js", ".json", ".css"]
  }

  /** strrchr(fname, '.'). */
  function Extension(fname: string): string {
    if fname == "" then ""
    else
      var rest := Extension(fname[1..]);
      if rest != "" then rest else if fname[0] == '.' then fname else ""
  }

  function Destination(fname: string): string {
    (if IsWebFile(fname) then HTTP_ROOT + "/" else PLC_ROOT_PATH) + fname
  }

  /** fs_rename; a missing source is an error. */
  function Rename(files: map<string, seq<byte>>, from: string, to: string): (r: (map<string, seq<byte>>, bool)) {
    if from in files then ((files - {from})[to := files[from]], true) else (files, false)
  }

  function NameFor(s: State, id: seq<byte>): string {
    var i := FindId(s.entries, id);
    if i < |s.entries| then s.entries[i].filename else ""
  }

  /** NewPLC's loop over the extra files; it stops at the first that cannot be renamed. */
  function MoveExtras(s: State, extras: seq<NamedUpload>): (r: (State, bool))
    decreases |extras|
  {
    if extras == [] then (s, true)
    else
      var (files, ok) := Rename(s.files, NameFor(s, extras[0].id), Destination(extras[0].fname));
      if ok then MoveExtras(s.(files := files), extras[1..]) else (s, false)
  }

  /** The check of NewPLC compares as many bytes as the given ID has. */
  predicate Matches(digest: seq<byte>, id: seq<byte>) {
    |id| <= |digest| && digest[..|id|] == id
  }

  /** NewPLC removes an old program if the MD5 file exists, and renames the uploaded file. */
  function Install(files: map<string, seq<byte>>, name: string): map<string, seq<byte>> {
    Rename(if PLC_MD5_FILE in files then files - {PLC_BIN_FILE} else files, name, PLC_BIN_FILE).0
  }

  /** NewPLC: the new state and its success flag. */
  function NewPlc(s: State, md5: Digest, md5sum: seq<byte>, id: seq<byte>, extras: seq<NamedUpload>)
    : (r: (State, bool))
  {
    var s1 := Finish(s, id);
    var s2 := s1.(digesting := false, fault := s1.fault || !s1.digesting);
    if !Matches(md5(s.hashed), id) then (s2, false)
    else
      var (s4, ok) := MoveExtras(s2.(plcRun := false, files := Install(s2.files, NameFor(s2, id))), extras);
      if ok then (s4.(files := s4.files[PLC_MD5_FILE := md5sum], reload := true), true) else (s4, false)
  }

  // ---------------------------------------------------------------- histories

  datatype Event =
    | PurgeEvent
    | SeedEvent(name: string, seed: seq<byte>)
    | AppendEvent(chunk: seq<byte>)
    | NewEvent(md5sum: seq<byte>, id: seq<byte>, extras: seq<NamedUpload>)

  function Step(s: State, md5: Digest, e: Event): State {
    match e
    case PurgeEvent => Purge(s)
    case SeedEvent(name, seed) => Seed(s, md5, name, seed)
    case AppendEvent(chunk) => Append(s, md5, chunk).0
    case NewEvent(md5sum, id, extras) => NewPlc(s, md5, md5sum, id, extras).0
  }

  function Run(s: State, md5: Digest, events: seq<Event>): State {
    if events == [] then s else Step(Run(s, md5, events[..|events| - 1]), md5, events[|events| - 1])
  }

  /** Idle: no upload is open. Loading: the last upload is open. Spent: NewPLC was called since the last purge. */
  datatype Phase = Idle | Loading | Spent

  /** One upload since boot: what its client sent. A purge ends its life. */
  datatype Upload = Upload(name: string, seed: seq<byte>, data: seq<byte>, live: bool)

  datatype History = History(uploads: seq<Upload>, phase: Phase)

  /** The uploads of a purged table: none is live. */
  function Retired(uploads: seq<Upload>): seq<Upload> {
    seq(|uploads|, i requires 0 <= i < |uploads| => uploads[i].(live := false))
  }

  /** What the clients did, told without the table or a digest. */
  function Told(events: seq<Event>): History {
    if events == [] then History([], Idle)
    else
      var h := Told(events[..|events| - 1]);
      var n := |h.uploads|;
      match events[|events| - 1]
      case PurgeEvent => History(Retired(h.uploads), Idle)
      case SeedEvent(name, seed) => History(h.uploads + [Upload(name, seed, [], true)], Loading)
      case AppendEvent(chunk) =>
        if n == 0 then h
        else History(h.uploads[n - 1 := h.uploads[n - 1].(data := h.uploads[n - 1].data + chunk)], h.phase)
      case NewEvent(_, _, _) => h.(phase := Spent)
  }

  /** What a history is measured against: the length of its seeds, and a set of strings that has every string it hashes.
      */
  datatype Scope = Scope(seedSize: nat, hashes: set<seq<byte>>)

  /** The digest has 16 bytes, and no two of the strings in scope collide. */
  ghost predicate Injective(md5: Digest, scope: Scope) {
    && (forall x :: |md5(x)| == DIGEST_SIZE)
    && (forall x, y :: x in scope.hashes && y in scope.hashes && md5(x) == md5(y) ==> x == y)
  }

  function IdOf(md5: Digest, u: Upload): seq<byte> {
    md5(u.seed + u.data)
  }

  /** The ID is that of a live upload before the last, whose file is already closed. */
  predicate NamesEarlier(md5: Digest, uploads: seq<Upload>, id: seq<byte>) {
    exists i :: 0 <= i < |uploads| - 1 && uploads[i].live && IdOf(md5, uploads[i]) == id
  }

  /** The order the protocol asks for: purge before a new transfer once NewPLC was called, and seed before appending.
      Seeds have one length, names and seeds differ from those of the live uploads, fewer than 20 uploads precede. */
  ghost predicate Orderly(md5: Digest, scope: Scope, events: seq<Event>) {
    events == [] || (
      var before := events[..|events| - 1];
      Orderly(md5, scope, before) && Allowed(md5, scope, Told(before), events[|events| - 1]))
  }

  /** Where the digest of the last upload goes when a chunk is appended. */
  predicate InScope(scope: Scope, uploads: seq<Upload>, chunk: seq<byte>) {
    uploads != [] && var u := uploads[|uploads| - 1]; u.seed + (u.data + chunk) in scope.hashes
  }

  /** A seed and a temporary name that no live upload has. */
  predicate FreshSeed(scope: Scope, uploads: seq<Upload>, name: string, seed: seq<byte>) {
    && |seed| == scope.seedSize && seed in scope.hashes && IsTemporary(name)
    && forall i :: 0 <= i < |uploads| && uploads[i].live ==> uploads[i].name != name && uploads[i].seed != seed
  }

  predicate Allowed(md5: Digest, scope: Scope, h: History, e: Event) {
    match e
    case PurgeEvent => true
    case SeedEvent(name, seed) =>
      !h.phase.Spent? && |h.uploads| < MAX_FILE_UPLOADS && FreshSeed(scope, h.uploads, name, seed)
    case AppendEvent(chunk) => h.phase.Loading? && InScope(scope, h.uploads, chunk)
    case NewEvent(_, id, _) => h.phase.Loading? && |id| <= DIGEST_SIZE && !NamesEarlier(md5, h.uploads, id)
  }

  /** Entry `e` of the table shows upload `u`. */
  predicate Shows(s: State, md5: Digest, e: Entry, u: Upload) {
    if u.live then e == Entry(u.name, IdOf(md5, u), Some(u.name)) && u.name in s.files && s.files[u.name] == u.data
    else e == EMPTY
  }

  ghost predicate Distinct(scope: Scope, uploads: seq<Upload>) {
    && (forall i :: 0 <= i < |uploads| ==> |uploads[i].seed| == scope.seedSize && IsTemporary(uploads[i].name))
    && (forall i :: 0 <= i < |uploads| && uploads[i].live ==> uploads[i].seed + uploads[i].data in scope.hashes)
    && (forall i, j :: 0 <= i < j < |uploads| && uploads[i].live && uploads[j].live ==>
          uploads[i].name != uploads[j].name && uploads[i].seed != uploads[j].seed)
  }

  /** The last upload is open: the digest has received its seed and data, and its file is the open one of the table. */
  ghost predicate LastIsOpen(s: State, uploads: seq<Upload>) {
    && uploads != []
    && var u := uploads[|uploads| - 1];
       && u.live && s.digesting && s.hashed == u.seed + u.data && u.name in s.open
       && forall i :: 0 <= i < |uploads| - 1 && uploads[i].live ==> uploads[i].name !in s.open
  }

  /** The table shows every upload, and the digest and the open file are those of the last. */
  ghost predicate Reflects(s: State, md5: Digest, scope: Scope, h: History) {
    && !s.fault && |s.entries| == |h.uploads| <= MAX_FILE_UPLOADS && Distinct(scope, h.uploads)
    && (!h.phase.Spent? ==> forall i :: 0 <= i < |h.uploads| ==> Shows(s, md5, s.entries[i], h.uploads[i]))
    && (h.phase.Loading? ==> LastIsOpen(s, h.uploads))
    && (h.phase.Idle? ==> forall i :: 0 <= i < |h.uploads| ==> !h.uploads[i].live)
  }

  /** Two live uploads never share an ID, whatever was appended to them. */
  lemma IdsDiffer(md5: Digest, scope: Scope, uploads: seq<Upload>, i: nat, j: nat)
    requires Injective(md5, scope) && Distinct(scope, uploads) && i < j < |uploads| && uploads[i].live
        && uploads[j].live
    ensures IdOf(md5, uploads[i]) != IdOf(md5, uploads[j])
  {
    var x, y := uploads[i].seed + uploads[i].data, uploads[j].seed + uploads[j].data;
    assert x[..scope.seedSize] == uploads[i].seed && y[..scope.seedSize] == uploads[j].seed;
  }

  /** Every live upload is found by its final ID. */
  lemma FoundById(s: State, md5: Digest, scope: Scope, h: History, i: nat)
    requires Injective(md5, scope) && Reflects(s, md5, scope, h) && !h.phase.Spent?
    requires i < |h.uploads| && h.uploads[i].live
    ensures FindId(s.entries, IdOf(md5, h.uploads[i])) == i
    ensures FileFor(s, IdOf(md5, h.uploads[i])) == Some(h.uploads[i].name)
    ensures NameFor(s, IdOf(md5, h.uploads[i])) == h.uploads[i].name && s.files[h.uploads[i].name] == h.uploads[i].data
  {
    var id := IdOf(md5, h.uploads[i]);
    var k := FindId(s.entries, id);
    assert Shows(s, md5, s.entries[i], h.uploads[i]);
    if k < i {
      assert Shows(s, md5, s.entries[k], h.uploads[k]);
      assert h.uploads[k].live;
      IdsDiffer(md5, scope, h.uploads, k, i);
    }
  }
}
