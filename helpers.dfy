// The in-place helpers every container operation is built from: admission
// of one file, unlinking, content replacement, the dismount reconciliation
// steps, and the HMAC framing of the sealed file.
module Helpers {
  import opened Bytes
  import opened Outcomes
  import opened CryptoPrimitives
  import opened ContainerModel

  /** One child of the temporary directory as ioutil.ReadDir lists it,
      together with the bytes ioutil.ReadFile would return for it. */
  datatype Entry = Entry(name: string, isDir: bool, content: seq<byte>)

  /** Some entry of the listing carries this name (directories included). */
  predicate Listed(listing: seq<Entry>, name: string) {
    exists i :: 0 <= i < |listing| && listing[i].name == name
  }

  // ---------------------------------------------------------------------
  // writeFileInContainer

  /** The admission rule: the capacity check runs first, then the collision check. */
  function Admit(s: State, filename: string, content: seq<byte>): (r: Admission) {
    var size := KB(|content|);
    if size > s.size || s.usage + size > s.size then CapacityExceeded
    else if filename in s.structure then NameCollision
    else Admitted
  }

  /** The container after writeFileInContainer offered it one file. */
  function AfterWrite(s: State, filename: string, content: seq<byte>): (r: State)
    ensures r.name == s.name && r.dirPath == s.dirPath && r.size == s.size
    // a file larger than the whole quota is refused even by an empty container
    ensures KB(|content|) > s.size ==> r == s
    // an existing name is never overwritten
    ensures filename in s.structure ==> r == s
    // on admission exactly one key is added and usage grows by exactly its size
    ensures Admit(s, filename, content) == Admitted ==>
              r.structure == s.structure[filename := content] && filename !in s.structure &&
              r.usage == s.usage + KB(|content|)
    ensures Admit(s, filename, content) != Admitted ==> r == s
    ensures WithinQuota(s) ==> WithinQuota(r)
    ensures r != s ==> WithinQuota(r)
    ensures Accounted(s) ==> Accounted(r)
  {
    if Admit(s, filename, content) == Admitted then
      TotalBytesInsert(s.structure, filename, content);
      s.(structure := s.structure[filename := content], usage := s.usage + KB(|content|))
    else s
  }

  method WriteFileInContainer(c: Container, filename: string, content: seq<byte>) returns (outcome: Admission)
    modifies c
    ensures outcome == Admit(old(c.Value()), filename, content)
    ensures c.Value() == AfterWrite(old(c.Value()), filename, content)
  {
    var size := KB(|content|);
    if size > c.size || c.usage + size > c.size {
      return CapacityExceeded;
    }
    if filename in c.structure {
      return NameCollision;
    }
    c.structure := c.structure[filename := content];
    c.usage := c.usage + size;
    outcome := Admitted;
  }

  // ---------------------------------------------------------------------
  // unlinkFile

  method UnlinkFile(c: Container, filename: string) returns (removed: bool)
    modifies c
    ensures removed == (filename in old(c.structure))
    ensures c.structure == old(c.structure) - {filename}
    ensures c.name == old(c.name) && c.dirPath == old(c.dirPath)
    ensures c.size == old(c.size) && c.usage == old(c.usage)
  {
    if filename !in c.structure {
      return false;
    }
    c.structure := c.structure - {filename};
    removed := true;
  }

  // ---------------------------------------------------------------------
  // updateContainer

  /** The container after updateContainer replaced `filename`'s content,
      `oldContent` being what the caller read from the map beforehand. */
  function AfterUpdate(s: State, filename: string, oldContent: seq<byte>, newContent: seq<byte>): (r: State)
    ensures r.name == s.name && r.dirPath == s.dirPath && r.size == s.size
    ensures r.structure == s.structure[filename := newContent]
    // usage moves by exactly the size difference, zero on the equal-length path
    ensures r.usage - s.usage == KB(|newContent|) - KB(|oldContent|)
    ensures filename in s.structure && s.structure[filename] == oldContent && Accounted(s) ==> Accounted(r)
  {
    var oldLength := KB(|oldContent|);
    var newSize := KB(|newContent|);
    var r :=
      if oldLength == newSize then
        s.(structure := s.structure[filename := newContent])
      else
        s.(usage := s.usage - (oldLength - newSize), structure := s.structure[filename := newContent]);
    assert filename in s.structure && s.structure[filename] == oldContent && Accounted(s) ==> Accounted(r) by {
      if filename in s.structure {
        TotalBytesReplace(s.structure, filename, newContent);
      }
    }
    r
  }

  method UpdateContainer(c: Container, filename: string, oldContent: seq<byte>, newContent: seq<byte>)
    modifies c
    ensures c.Value() == AfterUpdate(old(c.Value()), filename, oldContent, newContent)
  {
    var oldLength := KB(|oldContent|);
    var newSize := KB(|newContent|);
    if oldLength == newSize {
      c.structure := c.structure[filename := newContent];
      return;
    }
    c.usage := c.usage - (oldLength - newSize);
    c.structure := c.structure[filename := newContent];
  }

  /** There is no capacity check on replacement: a grown file can push usage past the quota. */
  lemma UpdateMayExceedQuota()
    ensures var s := State("c", "", 1.0, 1.0, map["a" := seq(1024, _ => 0)]);
            var r := AfterUpdate(s, "a", s.structure["a"], seq(2048, _ => 0));
            Accounted(s) && WithinQuota(s) && Accounted(r) && !WithinQuota(r)
  {
    var m: map<string, seq<byte>> := map["a" := seq(1024, _ => 0)];
    assert m == map[][("a") := m["a"]];
    TotalBytesInsert(map[], "a", m["a"]);
  }

  // ---------------------------------------------------------------------
  // contains

  /** Linear search of the listing for a name. */
  method Contains(files: seq<Entry>, fileName: string) returns (found: bool)
    ensures found <==> Listed(files, fileName)
  {
    var i := 0;
    while i < |files|
      invariant 0 <= i <= |files|
      invariant forall j :: 0 <= j < i ==> files[j].name != fileName
    {
      if fileName == files[i].name {
        return true;
      }
      i := i + 1;
    }
    return false;
  }

  // ---------------------------------------------------------------------
  // removeUnseen

  /** The entries whose name the listing carries. */
  function Seen(m: map<string, seq<byte>>, listing: seq<Entry>): (r: map<string, seq<byte>>) {
    map k | k in m && Listed(listing, k) :: m[k]
  }

  /** The entries whose name the listing lacks. */
  function Unseen(m: map<string, seq<byte>>, listing: seq<Entry>): (r: map<string, seq<byte>>) {
    map k | k in m && !Listed(listing, k) :: m[k]
  }

  /** The container after removeUnseen dropped every key the listing lacks. */
  ghost function AfterRemoveUnseen(s: State, listing: seq<Entry>): (r: State)
    ensures r.name == s.name && r.dirPath == s.dirPath && r.size == s.size
    ensures r.structure.Keys <= s.structure.Keys
    // every remaining key is named in the listing
    ensures forall k :: k in r.structure ==> Listed(listing, k)
    // every listed key stays, with its content
    ensures forall k :: k in s.structure && Listed(listing, k) ==> k in r.structure && r.structure[k] == s.structure[k]
    // usage drops by exactly the size of what was removed
    ensures r.usage == s.usage - KB(TotalBytes(Unseen(s.structure, listing)))
    ensures r.usage <= s.usage
    ensures Accounted(s) ==> Accounted(r)
  {
    var keep := set k | k in s.structure && Listed(listing, k);
    TotalBytesSplit(s.structure, keep);
    assert Seen(s.structure, listing) == map k | k in s.structure && k in keep :: s.structure[k];
    assert Unseen(s.structure, listing) == map k | k in s.structure && k !in keep :: s.structure[k];
    s.(structure := Seen(s.structure, listing),
       usage := s.usage - KB(TotalBytes(Unseen(s.structure, listing))))
  }

  /** A second pass with the same listing finds nothing more to remove. */
  lemma RemoveUnseenIdempotent(s: State, listing: seq<Entry>)
    ensures AfterRemoveUnseen(AfterRemoveUnseen(s, listing), listing) == AfterRemoveUnseen(s, listing)
  {
    var r := AfterRemoveUnseen(s, listing);
    assert Unseen(r.structure, listing) == map[];
    TotalBytesEmpty();
    assert Seen(r.structure, listing) == r.structure;
  }

  method RemoveUnseen(c: Container, files: seq<Entry>)
    modifies c
    ensures c.Value() == AfterRemoveUnseen(old(c.Value()), files)
  {
    ghost var m0 := c.structure;
    ghost var dropped: map<string, seq<byte>> := map[];
    var pending := c.structure.Keys;
    while pending != {}
      invariant pending <= m0.Keys
      invariant c.structure == map k | k in m0 && (k in pending || Listed(files, k)) :: m0[k]
      invariant dropped == map k | k in m0 && k !in pending && !Listed(files, k) :: m0[k]
      invariant c.usage == old(c.usage) - KB(TotalBytes(dropped))
      invariant c.name == old(c.name) && c.dirPath == old(c.dirPath) && c.size == old(c.size)
      decreases pending
    {
      var file :| file in pending;
      var content := c.structure[file];
      var listed := Contains(files, file);
      if !listed {
        var updatedSize := KB(|content|);
        var removed := UnlinkFile(c, file);
        if removed {
          c.usage := c.usage - updatedSize;
        }
        TotalBytesInsert(dropped, file, content);
        dropped := dropped[file := content];
      }
      pending := pending - {file};
    }
    assert c.structure == Seen(m0, files);
    assert dropped == Unseen(m0, files);
  }

  // ---------------------------------------------------------------------
  // saveContainer

  /** One iteration of saveContainer before its removeUnseen call: a new name
      goes through the admission rule, a known name has its content replaced. */
  function Ingest(s: State, file: Entry): (r: State) {
    if file.name !in s.structure then AfterWrite(s, file.name, file.content)
    else AfterUpdate(s, file.name, s.structure[file.name], file.content)
  }

  /** The container after saveContainer consumed the plain files `files`
      (in order), `listing` being the whole directory listing. */
  ghost function AfterSave(s: State, files: seq<Entry>, listing: seq<Entry>): (r: State)
    ensures r.name == s.name && r.dirPath == s.dirPath && r.size == s.size
    ensures Accounted(s) ==> Accounted(r)
    // keys only come from the old map or from the consumed files
    ensures forall k :: k in r.structure ==> k in s.structure || Listed(files, k)
    // a listed old key is never dropped
    ensures forall k :: k in s.structure && Listed(listing, k) ==> k in r.structure
    // once one file was consumed, every key is named in the listing
    ensures |files| > 0 ==> forall k :: k in r.structure ==> Listed(listing, k)
    decreases |files|
  {
    if files == [] then s
    else
      var t := AfterRemoveUnseen(Ingest(s, files[0]), listing);
      var r := AfterSave(t, files[1..], listing);
      assert forall k :: Listed(files[1..], k) ==> Listed(files, k) by {
        forall k | Listed(files[1..], k) ensures Listed(files, k) {
          var i :| 0 <= i < |files[1..]| && files[1..][i].name == k;
          assert files[i + 1].name == k;
        }
      }
      assert Listed(files, files[0].name) by { assert files[0].name == files[0].name; }
      r
  }

  method SaveContainer(c: Container, files: seq<Entry>, listing: seq<Entry>)
    modifies c
    ensures c.Value() == AfterSave(old(c.Value()), files, listing)
  {
    var i := 0;
    while i < |files|
      invariant 0 <= i <= |files|
      invariant AfterSave(c.Value(), files[i..], listing) == AfterSave(old(c.Value()), files, listing)
    {
      var file := files[i];
      assert files[i..][0] == file && files[i..][1..] == files[i + 1..];
      if file.name !in c.structure {
        var _ := WriteFileInContainer(c, file.name, file.content);
      } else {
        var content := c.structure[file.name];
        UpdateContainer(c, file.name, content, file.content);
      }
      RemoveUnseen(c, listing);
      i := i + 1;
    }
  }

  // ---------------------------------------------------------------------
  // hmacAuthEncrypt / hmacAuthDecrypt

  /** The ciphertext followed by its tag. */
  function Authenticated(mac: Mac, key: seq<byte>, ciphertext: seq<byte>): (r: seq<byte>) {
    ciphertext + mac(key, ciphertext)
  }

  /** Tag check: strip the trailing tag and accept only if it is the HMAC of the rest. */
  function Verified(mac: Mac, key: seq<byte>, sealed: seq<byte>): (r: Result<seq<byte>>) {
    if |sealed| < TagSize then Err(Truncated)
    else
      var offset := |sealed| - TagSize;
      if sealed[offset..] != mac(key, sealed[..offset]) then Err(IntegrityFailure)
      else Ok(sealed[..offset])
  }

  /** Tagging and then checking with the same key gives the ciphertext back. */
  lemma AuthRoundTrip(mac: Mac, key: seq<byte>, ciphertext: seq<byte>)
    ensures Verified(mac, key, Authenticated(mac, key, ciphertext)) == Ok(ciphertext)
  {
    var sealed := Authenticated(mac, key, ciphertext);
    assert sealed[..|ciphertext|] == ciphertext;
    assert sealed[|ciphertext|..] == mac(key, ciphertext);
  }

  method HmacAuthEncrypt(ciphertext: seq<byte>, key: seq<byte>, mac: Mac) returns (sealed: seq<byte>)
    ensures sealed == Authenticated(mac, key, ciphertext)
    ensures |sealed| == |ciphertext| + TagSize
    ensures sealed[..|ciphertext|] == ciphertext
  {
    var hash := mac(key, ciphertext);
    sealed := ciphertext + hash;
  }

  /** Strips the tag and compares it byte by byte with the recomputed HMAC,
      failing at the first mismatch. */
  method HmacAuthDecrypt(ciphertext: seq<byte>, key: seq<byte>, mac: Mac) returns (r: Result<seq<byte>>)
    ensures r == Verified(mac, key, ciphertext)
    ensures r.Ok? <==> |ciphertext| >= TagSize &&
                       ciphertext[|ciphertext| - TagSize..] == mac(key, ciphertext[..|ciphertext| - TagSize])
    ensures r.Ok? ==> r.value == ciphertext[..|ciphertext| - TagSize]
  {
    if |ciphertext| < TagSize {
      return Err(Truncated);
    }
    var offset := |ciphertext| - TagSize;
    var sum := ciphertext[offset..];
    var rest := ciphertext[..offset];
    var hash := mac(key, rest);
    var index := 0;
    while index < |hash|
      invariant 0 <= index <= |hash|
      invariant hash[..index] == sum[..index]
    {
      if hash[index] != sum[index] {
        assert hash != sum;
        return Err(IntegrityFailure);
      }
      index := index + 1;
    }
    assert hash == hash[..index] && sum == sum[..index];
    return Ok(rest);
  }
}
