// The container operations: creation, reset, removal, mount and dismount,
// bulk ingestion, and sealing/opening the container file.
module ContainerOperations {
  import opened Bytes
  import opened Outcomes
  import opened CryptoPrimitives
  import opened ContainerModel
  import opened Helpers

  // ---------------------------------------------------------------------
  // InitContainer

  /** A fresh container: the given name and quota, nothing mounted, nothing stored. */
  method InitContainer(name: string, size: real) returns (c: Container)
    ensures fresh(c)
    ensures c.Value() == State(name, "", size, 0.0, map[])
    ensures Accounted(c.Value())
    ensures WithinQuota(c.Value()) <==> size >= 0.0
  {
    c := new Container(name, "", size, 0.0, map[]);
    TotalBytesEmpty();
  }

  // ---------------------------------------------------------------------
  // ResetContainer

  /** The container emptied: no entries, usage 0, everything else kept. */
  function AfterReset(s: State): (r: State)
    ensures r.name == s.name && r.dirPath == s.dirPath && r.size == s.size
    ensures r.structure == map[] && r.usage == 0.0
    ensures Accounted(r)
  {
    TotalBytesEmpty();
    s.(structure := map[], usage := 0.0)
  }

  method ResetContainer(c: Container)
    modifies c
    ensures c.Value() == AfterReset(old(c.Value()))
  {
    var files := c.structure.Keys;
    while files != {}
      invariant c.structure.Keys == files
      invariant c.name == old(c.name) && c.dirPath == old(c.dirPath)
      invariant c.size == old(c.size) && c.usage == old(c.usage)
      decreases files
    {
      var file :| file in files;
      var _ := UnlinkFile(c, file);
      files := files - {file};
    }
    c.usage := 0.0;
  }

  // ---------------------------------------------------------------------
  // RemoveFileFromContainer

  /** As written: `path` is used verbatim as the key, and usage drops by 100
      times the size of the file found at `path` on disk (`diskBytes`). */
  function AfterRemoveFileAsWritten(s: State, path: string, diskBytes: nat): (r: State)
    ensures r.name == s.name && r.dirPath == s.dirPath && r.size == s.size
    ensures path !in s.structure ==> r == s
    ensures path in s.structure ==> r.structure == s.structure - {path}
    ensures path in s.structure ==> s.usage - r.usage == 100.0 * KB(diskBytes)
  {
    if path in s.structure then
      s.(structure := s.structure - {path}, usage := s.usage - KB(diskBytes) * 100.0)
    else s
  }

  method RemoveFileFromContainer(c: Container, path: string, diskBytes: nat)
    modifies c
    ensures c.Value() == AfterRemoveFileAsWritten(old(c.Value()), path, diskBytes)
  {
    var size := KB(diskBytes);
    var removed := UnlinkFile(c, path);
    if removed {
      c.usage := c.usage - size * 100.0;
    }
  }

  /** Removing a stored 1 kB file whose copy on disk is also 1 kB leaves
      usage at -99 instead of 0: the accounting invariant is broken. */
  lemma RemoveFileScaleMismatch()
    ensures var s := State("c", "", 10.0, 1.0, map["a" := seq(1024, _ => 0)]);
            var r := AfterRemoveFileAsWritten(s, "a", 1024);
            Accounted(s) && r.structure == map[] && r.usage == -99.0 && !Accounted(r)
  {
    var m: map<string, seq<byte>> := map["a" := seq(1024, _ => 0)];
    assert m == map[][("a") := m["a"]];
    TotalBytesInsert(map[], "a", m["a"]);
    TotalBytesEmpty();
    assert m - {"a"} == map[];
  }

  /** Corrected: usage drops by the recorded size of the removed entry. */
  function AfterRemoveFile(s: State, filename: string): (r: State)
    ensures r.name == s.name && r.dirPath == s.dirPath && r.size == s.size
    ensures filename !in s.structure ==> r == s
    ensures filename in s.structure ==>
              r.structure == s.structure - {filename} &&
              r.usage == s.usage - KB(|s.structure[filename]|)
    ensures Accounted(s) ==> Accounted(r)
    ensures WithinQuota(s) && Accounted(s) ==> WithinQuota(r)
  {
    if filename in s.structure then
      TotalBytesRemove(s.structure, filename);
      s.(structure := s.structure - {filename}, usage := s.usage - KB(|s.structure[filename]|))
    else s
  }

  method RemoveFile(c: Container, filename: string)
    modifies c
    ensures c.Value() == AfterRemoveFile(old(c.Value()), filename)
  {
    if filename in c.structure {
      var size := KB(|c.structure[filename]|);
      var _ := UnlinkFile(c, filename);
      c.usage := c.usage - size;
    }
  }

  /** Quota of 10 kB: a 6 kB file is admitted, a second 6 kB file is
      refused, and removing the first (by its recorded size) frees everything. */
  lemma QuotaScenario()
    ensures var six: seq<byte> := seq(6144, _ => 0);
            var s0 := State("box", "", 10.0, 0.0, map[]);
            var s1 := AfterWrite(s0, "a", six);
            var s2 := AfterWrite(s1, "b", six);
            var s3 := AfterRemoveFile(s2, "a");
            Admit(s0, "a", six) == Admitted && s1.usage == 6.0 &&
            Admit(s1, "b", six) == CapacityExceeded && s2 == s1 &&
            s3.structure == map[] && s3.usage == 0.0 &&
            AfterRemoveFileAsWritten(s2, "a", 6144).usage == -594.0 &&
            AfterReset(s3).usage == 0.0
  {
  }

  // ---------------------------------------------------------------------
  // Listings of the temporary directory

  /** The regular files of a listing, in order: what DismountContainer's
      producer sends down the channel (directories are refused). */
  function PlainFiles(listing: seq<Entry>): (files: seq<Entry>)
    ensures forall i :: 0 <= i < |files| ==> !files[i].isDir
    ensures forall i :: 0 <= i < |files| ==> files[i] in listing
    ensures forall i :: 0 <= i < |listing| && !listing[i].isDir ==> listing[i] in files
  {
    if listing == [] then []
    else if listing[0].isDir then PlainFiles(listing[1..])
    else [listing[0]] + PlainFiles(listing[1..])
  }

  predicate NoDirectories(listing: seq<Entry>) {
    forall i :: 0 <= i < |listing| ==> !listing[i].isDir
  }

  /** The name -> content map a listing describes (a later entry wins). */
  function ListingMap(listing: seq<Entry>): (m: map<string, seq<byte>>)
    ensures forall k :: k in m <==> Listed(listing, k)
  {
    if listing == [] then map[]
    else
      var rest := ListingMap(listing[1..]);
      assert forall k :: Listed(listing, k) <==> k == listing[0].name || Listed(listing[1..], k) by {
        forall k ensures Listed(listing, k) <==> k == listing[0].name || Listed(listing[1..], k) {
          if Listed(listing, k) && k != listing[0].name {
            var i :| 0 <= i < |listing| && listing[i].name == k;
            assert listing[1..][i - 1].name == k;
          }
          if Listed(listing[1..], k) {
            var i :| 0 <= i < |listing[1..]| && listing[1..][i].name == k;
            assert listing[i + 1].name == k;
          }
          if k == listing[0].name {
            assert listing[0].name == k;
          }
        }
      }
      map[listing[0].name := listing[0].content] + rest
  }

  /** Appending an entry binds its name to its content. */
  lemma {:induction false} ListingMapAppend(listing: seq<Entry>, e: Entry)
    ensures ListingMap(listing + [e]) == ListingMap(listing)[e.name := e.content]
    decreases |listing|
  {
    if listing == [] {
      assert [] + [e] == [e];
      assert [e][1..] == [];
    } else {
      assert (listing + [e])[1..] == listing[1..] + [e];
      ListingMapAppend(listing[1..], e);
    }
  }

  // ---------------------------------------------------------------------
  // MountContainer

  /** The goroutine of MountContainer and writeFileToDir: every entry is
      written into the directory as a file named by its key. The returned
      listing is what the directory then holds. */
  method WriteEntriesToDir(structure: map<string, seq<byte>>) returns (listing: seq<Entry>)
    ensures NoDirectories(listing)
    ensures ListingMap(listing) == structure
    // each key is written once, with its own content
    ensures DistinctNames(listing)
    ensures EntriesOf(listing, structure)
  {
    var pending := structure.Keys;
    listing := [];
    ghost var written: map<string, seq<byte>> := map[];
    while pending != {}
      invariant pending <= structure.Keys
      invariant written.Keys == structure.Keys - pending
      invariant forall k :: k in written ==> written[k] == structure[k]
      invariant NoDirectories(listing)
      invariant ListingMap(listing) == written
      invariant DistinctNames(listing) && EntriesOf(listing, written)
      decreases pending
    {
      var path :| path in pending;
      var file := Entry(path, false, structure[path]);
      ListingMapAppend(listing, file);
      AppendFreshEntry(listing, written, file);
      listing := listing + [file];
      written := written[path := structure[path]];
      pending := pending - {path};
    }
    assert written == structure;
  }

  /** No two entries of a listing share a name, as in any directory. */
  predicate DistinctNames(listing: seq<Entry>) {
    forall i, j :: 0 <= i < j < |listing| ==> listing[i].name != listing[j].name
  }

  /** Every entry of the listing is a regular file holding the content `m`
      has under its name. */
  predicate EntriesOf(listing: seq<Entry>, m: map<string, seq<byte>>) {
    forall i :: 0 <= i < |listing| ==> listing[i].name in m && listing[i].content == m[listing[i].name]
  }

  /** Writing a file under a name not yet written keeps the names distinct
      and the entries those of the map. */
  lemma AppendFreshEntry(listing: seq<Entry>, m: map<string, seq<byte>>, e: Entry)
    requires DistinctNames(listing) && EntriesOf(listing, m) && e.name !in m
    ensures DistinctNames(listing + [e])
    ensures EntriesOf(listing + [e], m[e.name := e.content])
  {
    var l := listing + [e];
    forall i, j | 0 <= i < j < |l| ensures l[i].name != l[j].name {
      if j == |listing| {
        assert l[i] == listing[i] && listing[i].name in m;
      } else {
        assert l[i] == listing[i] && l[j] == listing[j];
      }
    }
    forall i | 0 <= i < |l| ensures l[i].name in m[e.name := e.content] && l[i].content == m[e.name := e.content][l[i].name] {
      if i < |listing| {
        assert l[i] == listing[i];
      }
    }
  }

  /** Records the temporary directory and projects the entries into it; the
      in-memory entries are left untouched. */
  method MountContainer(c: Container, dir: string) returns (listing: seq<Entry>)
    modifies c
    ensures c.Value() == old(c.Value()).(dirPath := dir)
    ensures NoDirectories(listing)
    ensures ListingMap(listing) == c.structure
    ensures DistinctNames(listing)
    ensures EntriesOf(listing, c.structure)
  {
    listing := WriteEntriesToDir(c.structure);
    c.dirPath := dir;
  }

  // ---------------------------------------------------------------------
  // DismountContainer

  /** An empty directory resets the container; otherwise every regular file
      is reconciled in listing order, unseen keys being dropped after each. */
  ghost function AfterDismount(s: State, listing: seq<Entry>): (r: State) {
    if |listing| == 0 then AfterReset(s)
    else AfterSave(s, PlainFiles(listing), listing)
  }

  method DismountContainer(c: Container, listing: seq<Entry>)
    modifies c
    ensures c.Value() == AfterDismount(old(c.Value()), listing)
  {
    if |listing| == 0 {
      ResetContainer(c);
      return;
    }
    var files := PlainFiles(listing);
    SaveContainer(c, files, listing);
  }

  // ---------------------------------------------------------------------
  // AddDir

  /** A node of the directory tree AddDir walks. */
  datatype Node = File(name: string, content: seq<byte>) | Directory(name: string, children: seq<Node>)

  /** The container after AddDir walked `children` in order, descending into
      each subdirectory where it stands and offering each file to the admission rule. */
  ghost function AfterAddDir(s: State, children: seq<Node>): (r: State)
    ensures r.name == s.name && r.dirPath == s.dirPath && r.size == s.size
    ensures Accounted(s) ==> Accounted(r)
    ensures WithinQuota(s) ==> WithinQuota(r)
    // nothing already stored is lost or altered
    ensures forall k :: k in s.structure ==> k in r.structure && r.structure[k] == s.structure[k]
    ensures r.usage >= s.usage
    decreases children
  {
    if children == [] then s
    else
      var next := match children[0]
        case File(name, content) => AfterWrite(s, name, content)
        case Directory(_, kids) => AfterAddDir(s, kids);
      AfterAddDir(next, children[1..])
  }

  method AddDir(c: Container, children: seq<Node>)
    modifies c
    ensures c.Value() == AfterAddDir(old(c.Value()), children)
    decreases children
  {
    var i := 0;
    while i < |children|
      invariant 0 <= i <= |children|
      invariant AfterAddDir(c.Value(), children[i..]) == AfterAddDir(old(c.Value()), children)
    {
      assert children[i..][0] == children[i] && children[i..][1..] == children[i + 1..];
      match children[i] {
        case File(name, content) =>
          var _ := WriteFileInContainer(c, name, content);
        case Directory(_, kids) =>
          AddDir(c, kids);
      }
      i := i + 1;
    }
  }

  /** What decodeFromFile leaves in a container it decodes into: gob sends no
      zero-valued field, so every stored field that is not zero overwrites
      the in-memory one, and the stored entries are merged into the
      in-memory map. */
  function Redecode(c: State, stored: State): (r: State)
    ensures stored.usage != 0.0 ==> r.usage == stored.usage
    ensures stored.usage == 0.0 ==> r.usage == c.usage
    ensures forall k :: k in r.structure <==> k in c.structure || k in stored.structure
    ensures forall k :: k in stored.structure ==> r.structure[k] == stored.structure[k]
  {
    State(if stored.name != "" then stored.name else c.name,
          if stored.dirPath != "" then stored.dirPath else c.dirPath,
          if stored.size != 0.0 then stored.size else c.size,
          if stored.usage != 0.0 then stored.usage else c.usage,
          c.structure + stored.structure)
  }

  /** Decoding a container's own file into it changes nothing. */
  lemma RedecodeOwnFile(s: State)
    ensures Redecode(s, s) == s
  {
    assert s.structure + s.structure == s.structure;
  }

  /** AddDir as written: every call, the nested ones included, starts by
      decoding the container file `stored` into the shared in-memory
      container, and every call ends by encoding that container back to the
      file. */
  ghost function AfterAddDirAsWritten(c: State, stored: State, children: seq<Node>): (r: State)
    // neither an in-memory nor a stored entry is lost
    ensures forall k :: k in c.structure || k in stored.structure ==> k in r.structure
    decreases children, 1
  {
    WalkAsWritten(Redecode(c, stored), stored, children)
  }

  /** The loop of one as-written AddDir call after its opening decode. */
  ghost function WalkAsWritten(c: State, stored: State, children: seq<Node>): (r: State)
    ensures forall k :: k in c.structure ==> k in r.structure
    decreases children, 0
  {
    if children == [] then c
    else match children[0]
      case File(name, content) => WalkAsWritten(AfterWrite(c, name, content), stored, children[1..])
      case Directory(_, kids) =>
        var d := AfterAddDirAsWritten(c, stored, kids);
        WalkAsWritten(d, d, children[1..])
  }

  /** Without subdirectories nothing is decoded after the start, and the
      as-written walk is the corrected one, whatever the file held. */
  lemma {:induction false} WalkOfFilesIsCorrected(c: State, stored: State, children: seq<Node>)
    requires forall i :: 0 <= i < |children| ==> children[i].File?
    ensures WalkAsWritten(c, stored, children) == AfterAddDir(c, children)
    decreases children
  {
    if children != [] {
      assert children[0].File?;
      var next := AfterWrite(c, children[0].name, children[0].content);
      forall i | 0 <= i < |children[1..]| ensures children[1..][i].File? {
        assert children[1..][i] == children[i + 1];
      }
      WalkOfFilesIsCorrected(next, stored, children[1..]);
    }
  }

  /** For a directory without subdirectories, AddDir as written does what the
      corrected walk does. */
  lemma AddDirOfFilesAgrees(s: State, children: seq<Node>)
    requires forall i :: 0 <= i < |children| ==> children[i].File?
    ensures AfterAddDirAsWritten(s, s, children) == AfterAddDir(s, children)
  {
    RedecodeOwnFile(s);
    WalkOfFilesIsCorrected(s, s, children);
  }

  // The scenario of the second finding: a 10 kB container holding a 1 kB
  // file, given two 3 kB files and then a subdirectory with a 6 kB file.
  const OneKb: seq<byte> := seq(1024, _ => 0)
  const ThreeKb: seq<byte> := seq(3072, _ => 0)
  const SixKb: seq<byte> := seq(6144, _ => 0)
  const NestedStart := State("box", "", 10.0, 1.0, map["x" := OneKb])
  const NestedTree := [File("a", ThreeKb), File("b", ThreeKb), Directory("d", [File("c", SixKb)])]

  /** As written, the subdirectory's call re-decodes usage 1 from the file
      and admits the 6 kB file. */
  lemma NestedWalkAsWritten()
    ensures AfterAddDirAsWritten(NestedStart, NestedStart, NestedTree) ==
            NestedStart.(usage := 7.0, structure := NestedStart.structure["a" := ThreeKb]["b" := ThreeKb]["c" := SixKb])
  {
    var s := NestedStart;
    RedecodeOwnFile(s);
    var c1 := AfterWrite(s, "a", ThreeKb);
    assert c1.usage == 4.0;
    var c2 := AfterWrite(c1, "b", ThreeKb);
    assert c2.usage == 7.0;
    var c3 := Redecode(c2, s);
    assert c3.structure == c2.structure && c3.usage == 1.0;
    var c4 := AfterWrite(c3, "c", SixKb);
    assert c4.usage == 7.0;
    var kids := [File("c", SixKb)];
    var rest := NestedTree[1..];
    assert kids[1..] == [] && rest == [File("b", ThreeKb), Directory("d", kids)];
    assert rest[1..] == [Directory("d", kids)] && rest[1..][1..] == [];
    assert WalkAsWritten(c3, s, kids) == WalkAsWritten(c4, s, []) == c4;
    assert AfterAddDirAsWritten(c2, s, kids) == c4;
    assert WalkAsWritten(c2, s, rest[1..]) == WalkAsWritten(c4, c4, []);
    assert WalkAsWritten(c1, s, rest) == WalkAsWritten(c2, s, rest[1..]);
  }

  /** The corrected walk admits both 3 kB files and refuses the 6 kB one. */
  lemma NestedWalkCorrected()
    ensures AfterAddDir(NestedStart, NestedTree) ==
            NestedStart.(usage := 7.0, structure := NestedStart.structure["a" := ThreeKb]["b" := ThreeKb])
  {
    var s := NestedStart;
    var c1 := AfterWrite(s, "a", ThreeKb);
    assert c1.usage == 4.0;
    var c2 := AfterWrite(c1, "b", ThreeKb);
    assert c2.usage == 7.0;
    var kids := [File("c", SixKb)];
    var rest := NestedTree[1..];
    assert kids[1..] == [] && rest == [File("b", ThreeKb), Directory("d", kids)];
    assert rest[1..] == [Directory("d", kids)] && rest[1..][1..] == [];
    assert AfterWrite(c2, "c", SixKb) == c2;
    assert AfterAddDir(c2, kids) == AfterAddDir(c2, []) == c2;
    assert AfterAddDir(c2, rest[1..]) == AfterAddDir(c2, []);
    assert AfterAddDir(s, NestedTree) == AfterAddDir(c1, rest) == AfterAddDir(c2, rest[1..]);
  }

  /** The byte totals of the scenario's maps. */
  lemma NestedTotals()
    ensures TotalBytes(NestedStart.structure) == 1024
    ensures TotalBytes(NestedStart.structure["a" := ThreeKb]["b" := ThreeKb]) == 7168
    ensures TotalBytes(NestedStart.structure["a" := ThreeKb]["b" := ThreeKb]["c" := SixKb]) == 13312
  {
    var m := NestedStart.structure;
    assert m == map[]["x" := OneKb];
    TotalBytesEmpty();
    TotalBytesInsert(map[], "x", OneKb);
    TotalBytesInsert(m, "a", ThreeKb);
    TotalBytesInsert(m["a" := ThreeKb], "b", ThreeKb);
    TotalBytesInsert(m["a" := ThreeKb]["b" := ThreeKb], "c", SixKb);
  }

  /** The other order the goroutine allows: the nested decode runs before
      "b" is admitted. "b" then counts against usage 1, and "c" still fits,
      so the same 13 kB are stored, now with usage 10. */
  lemma NestedDecodeBeforeSecondFile()
    ensures var c1 := AfterWrite(NestedStart, "a", ThreeKb);
            var r := AfterWrite(AfterWrite(Redecode(c1, NestedStart), "b", ThreeKb), "c", SixKb);
            r.structure == NestedStart.structure["a" := ThreeKb]["b" := ThreeKb]["c" := SixKb] &&
            r.usage == 10.0 && KB(TotalBytes(r.structure)) == 13.0 && !Accounted(r)
  {
    var c1 := AfterWrite(NestedStart, "a", ThreeKb);
    assert c1.usage == 4.0;
    var c2 := Redecode(c1, NestedStart);
    assert c2.structure == c1.structure && c2.usage == 1.0;
    var c3 := AfterWrite(c2, "b", ThreeKb);
    assert c3.usage == 4.0;
    NestedTotals();
  }

  /** A nested call re-decodes the file, whose usage does not yet count the
      files the outer call admitted: as written the scenario stores 13 kB
      under the 10 kB quota with usage 7, while the corrected walk refuses
      the 6 kB file and stays accounted. */
  lemma AddDirNestedOverfills()
    ensures var r := AfterAddDirAsWritten(NestedStart, NestedStart, NestedTree);
            var fixed := AfterAddDir(NestedStart, NestedTree);
            Accounted(NestedStart) && WithinQuota(NestedStart) &&
            "c" in r.structure && r.usage == 7.0 &&
            KB(TotalBytes(r.structure)) == 13.0 && KB(TotalBytes(r.structure)) > r.size && !Accounted(r) &&
            "c" !in fixed.structure && fixed.usage == 7.0 && Accounted(fixed) && WithinQuota(fixed)
  {
    NestedWalkAsWritten();
    NestedWalkCorrected();
    NestedTotals();
  }

  // ---------------------------------------------------------------------
  // EncryptContainer / DecryptContainer

  /** The sealed file: IV, then the CFB ciphertext, then the tag over both. */
  function Sealed(e: BlockCipher, mac: Mac, key: seq<byte>, iv: Block, content: seq<byte>): (r: seq<byte>) {
    Authenticated(mac, key, iv + CfbEncrypt(e, key, iv, content))
  }

  /** Opening a sealed file: tag first, then the key, then the IV length, then decryption. */
  function Opened(e: BlockCipher, mac: Mac, key: seq<byte>, sealed: seq<byte>): (r: Result<seq<byte>>) {
    match Verified(mac, key, sealed)
    case Err(f) => Err(f)
    case Ok(ciphertext) =>
      if !ValidKeyLength(|key|) then Err(InvalidKeyLength)
      else if |ciphertext| < BlockSize then Err(CiphertextTooShort)
      else Ok(CfbDecrypt(e, key, ciphertext[..BlockSize], ciphertext[BlockSize..]))
  }

  /** Seals the file content `content` under `key`, with the random IV `iv`.
      Returns false, leaving the file as it was, when the key length is wrong. */
  method EncryptContainer(content: seq<byte>, key: seq<byte>, iv: Block, e: BlockCipher, mac: Mac)
    returns (ok: bool, file: seq<byte>)
    ensures ok <==> ValidKeyLength(|key|)
    ensures !ok ==> file == content
    ensures ok ==> file == Sealed(e, mac, key, iv, content)
    ensures ok ==> |file| == BlockSize + |content| + TagSize
    ensures ok ==> file[..BlockSize] == iv
    ensures ok ==> file[BlockSize..BlockSize + |content|] == CfbEncrypt(e, key, iv, content)
    ensures ok ==> file[BlockSize + |content|..] == mac(key, file[..BlockSize + |content|])
  {
    if |key| != 16 && |key| != 24 && |key| != 32 {
      return false, content;
    }
    var ciphertext := iv + CfbEncrypt(e, key, iv, content);
    file := HmacAuthEncrypt(ciphertext, key, mac);
    ok := true;
    assert file[..BlockSize + |content|] == ciphertext;
    assert ciphertext[..BlockSize] == iv;
  }

  /** Opens the sealed file `file` under `key`. */
  method DecryptContainer(file: seq<byte>, key: seq<byte>, e: BlockCipher, mac: Mac) returns (r: Result<seq<byte>>)
    ensures r == Opened(e, mac, key, file)
    // the tag is checked before anything else is done with the ciphertext
    ensures |file| >= TagSize && file[|file| - TagSize..] != mac(key, file[..|file| - TagSize]) ==>
              r == Err(IntegrityFailure)
    ensures r.Ok? ==> ValidKeyLength(|key|) && |file| >= BlockSize + TagSize
    ensures r.Ok? ==> |r.value| == |file| - BlockSize - TagSize
    ensures r.Ok? ==> r.value == CfbDecrypt(e, key, file[..BlockSize], file[BlockSize..|file| - TagSize])
  {
    var authenticated := HmacAuthDecrypt(file, key, mac);
    if authenticated.Err? {
      return Err(authenticated.failure);
    }
    if !ValidKeyLength(|key|) {
      return Err(InvalidKeyLength);
    }
    var ciphertext := authenticated.value;
    if |ciphertext| < BlockSize {
      return Err(CiphertextTooShort);
    }
    var iv: Block := ciphertext[..BlockSize];
    ciphertext := ciphertext[BlockSize..];
    assert iv == file[..BlockSize] && ciphertext == file[BlockSize..|file| - TagSize];
    r := Ok(CfbDecrypt(e, key, iv, ciphertext));
  }

  /** Opening what was sealed with the same key returns the content. */
  lemma SealOpenRoundTrip(e: BlockCipher, mac: Mac, key: seq<byte>, iv: Block, content: seq<byte>)
    requires ValidKeyLength(|key|)
    ensures |Sealed(e, mac, key, iv, content)| == |content| + BlockSize + TagSize
    ensures Opened(e, mac, key, Sealed(e, mac, key, iv, content)) == Ok(content)
  {
    var ciphertext := iv + CfbEncrypt(e, key, iv, content);
    AuthRoundTrip(mac, key, ciphertext);
    assert ciphertext[..BlockSize] == iv;
    assert ciphertext[BlockSize..] == CfbEncrypt(e, key, iv, content);
    CfbRoundTrip(e, key, iv, content);
  }
}
