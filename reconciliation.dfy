// Properties of dismount reconciliation (DismountContainer driving
// saveContainer, updateContainer, removeUnseen and contains).
module Reconciliation {
  import opened Bytes
  import opened Outcomes
  import opened ContainerModel
  import opened Helpers
  import opened ContainerOperations

  /** A listing without directories is passed on whole, in order. */
  lemma {:induction false} PlainFilesOfFiles(listing: seq<Entry>)
    requires NoDirectories(listing)
    ensures PlainFiles(listing) == listing
    decreases |listing|
  {
    if listing != [] {
      PlainFilesOfFiles(listing[1..]);
      assert [listing[0]] + listing[1..] == listing;
    }
  }

  /** A listing of directories only sends nothing down the channel. */
  lemma {:induction false} PlainFilesOfDirectories(listing: seq<Entry>)
    requires forall i :: 0 <= i < |listing| ==> listing[i].isDir
    ensures PlainFiles(listing) == []
    decreases |listing|
  {
    if listing != [] {
      PlainFilesOfDirectories(listing[1..]);
    }
  }

  /** Accounting survives every dismount. */
  lemma DismountPreservesAccounting(s: State, listing: seq<Entry>)
    requires Accounted(s)
    ensures Accounted(AfterDismount(s, listing))
    ensures AfterDismount(s, listing).name == s.name && AfterDismount(s, listing).size == s.size
  {
  }

  /** An empty temporary directory collapses to a full reset. */
  lemma DismountEmptyResets(s: State)
    ensures AfterDismount(s, []).structure == map[]
    ensures AfterDismount(s, []).usage == 0.0
    ensures AfterDismount(s, []).size == s.size && AfterDismount(s, []).name == s.name
  {
  }

  /** Directory entries are never ingested: every key of the result is an old
      key or the name of a regular file of the listing. */
  lemma DismountIngestsOnlyFiles(s: State, listing: seq<Entry>)
    ensures forall k :: k in AfterDismount(s, listing).structure ==>
              k in s.structure || exists i :: 0 <= i < |listing| && !listing[i].isDir && listing[i].name == k
  {
    if |listing| > 0 {
      var files := PlainFiles(listing);
      forall k | k in AfterDismount(s, listing).structure && k !in s.structure
        ensures exists i :: 0 <= i < |listing| && !listing[i].isDir && listing[i].name == k
      {
        var j :| 0 <= j < |files| && files[j].name == k;
        assert files[j] in listing;
        var i :| 0 <= i < |listing| && listing[i] == files[j];
        assert !listing[i].isDir && listing[i].name == k;
      }
    }
  }

  /** An old key whose name is still listed survives a non-empty dismount. */
  lemma DismountKeepsListedKeys(s: State, listing: seq<Entry>)
    requires |listing| > 0
    ensures forall k :: k in s.structure && Listed(listing, k) ==> k in AfterDismount(s, listing).structure
  {
  }

  /** As soon as one regular file is listed, every surviving key is named in the listing. */
  lemma DismountDropsUnlisted(s: State, listing: seq<Entry>)
    requires exists i :: 0 <= i < |listing| && !listing[i].isDir
    ensures forall k :: k in AfterDismount(s, listing).structure ==> Listed(listing, k)
  {
    var files := PlainFiles(listing);
    var i :| 0 <= i < |listing| && !listing[i].isDir;
    assert listing[i] in files;
  }

  /** A listing of directories only runs removeUnseen not even once: the
      container comes out unchanged, unlisted keys included. */
  lemma DismountOnlyDirectories(s: State, listing: seq<Entry>)
    requires |listing| > 0
    requires forall i :: 0 <= i < |listing| ==> listing[i].isDir
    ensures AfterDismount(s, listing) == s
  {
    PlainFilesOfDirectories(listing);
  }

  /** removeUnseen leaves a container whose keys are all listed as it is. */
  lemma RemoveUnseenAllListed(u: State, listing: seq<Entry>)
    requires forall k :: k in u.structure ==> Listed(listing, k)
    ensures AfterRemoveUnseen(u, listing).structure == u.structure
  {
    assert Seen(u.structure, listing) == u.structure;
  }

  lemma MapUpdateThenUnion(m: map<string, seq<byte>>, k: string, v: seq<byte>, rest: map<string, seq<byte>>)
    ensures m[k := v] + rest == m + (map[k := v] + rest)
  {
  }

  /** saveContainer over files whose names are all stored keys, once every
      stored key is listed: each file's content replaces the stored one. */
  lemma {:induction false} SaveKnownNames(t: State, files: seq<Entry>, listing: seq<Entry>)
    requires forall i :: 0 <= i < |files| ==> files[i].name in t.structure
    requires forall k :: k in t.structure ==> Listed(listing, k)
    ensures AfterSave(t, files, listing).structure == t.structure + ListingMap(files)
    decreases |files|
  {
    if files == [] {
      assert t.structure + map[] == t.structure;
    } else {
      var f := files[0];
      var u := Ingest(t, f);
      assert u.structure == t.structure[f.name := f.content];
      RemoveUnseenAllListed(u, listing);
      var v := AfterRemoveUnseen(u, listing);
      assert AfterSave(t, files, listing) == AfterSave(v, files[1..], listing);
      forall i | 0 <= i < |files[1..]| ensures files[1..][i].name in v.structure {
        assert files[1..][i] == files[i + 1];
      }
      SaveKnownNames(v, files[1..], listing);
      MapUpdateThenUnion(t.structure, f.name, f.content, ListingMap(files[1..]));
    }
  }

  /** The first file of a listing of known names: after it and the
      removeUnseen that follows, the keys are exactly the listed names. */
  lemma FirstPassKnownNames(s: State, listing: seq<Entry>)
    requires |listing| > 0
    requires forall i :: 0 <= i < |listing| ==> listing[i].name in s.structure
    ensures var v := AfterRemoveUnseen(Ingest(s, listing[0]), listing);
            (forall k :: k in v.structure <==> Listed(listing, k)) &&
            listing[0].name in v.structure && v.structure[listing[0].name] == listing[0].content
  {
    var f := listing[0];
    var u := Ingest(s, f);
    assert u.structure == s.structure[f.name := f.content];
    assert Listed(listing, f.name) by { assert listing[0].name == f.name; }
    forall k | Listed(listing, k) ensures k in s.structure {
      var i :| 0 <= i < |listing| && listing[i].name == k;
    }
  }

  lemma OverrideCovers(v: map<string, seq<byte>>, k0: string, v0: seq<byte>, rest: map<string, seq<byte>>, target: map<string, seq<byte>>)
    requires target == map[k0 := v0] + rest
    requires forall k :: k in v <==> k in target
    requires k0 in v && v[k0] == v0
    ensures v + rest == target
  {
  }

  /** When every listed file is a stored key, the result holds exactly the
      listed files with their current contents. */
  lemma DismountKnownNames(s: State, listing: seq<Entry>)
    requires |listing| > 0 && NoDirectories(listing)
    requires forall i :: 0 <= i < |listing| ==> listing[i].name in s.structure
    ensures AfterDismount(s, listing).structure == ListingMap(listing)
  {
    PlainFilesOfFiles(listing);
    var f := listing[0];
    var v := AfterRemoveUnseen(Ingest(s, f), listing);
    assert AfterDismount(s, listing) == AfterSave(v, listing[1..], listing);
    FirstPassKnownNames(s, listing);
    forall i | 0 <= i < |listing[1..]| ensures listing[1..][i].name in v.structure {
      assert listing[1..][i] == listing[i + 1];
      assert Listed(listing, listing[i + 1].name);
    }
    SaveKnownNames(v, listing[1..], listing);
    OverrideCovers(v.structure, f.name, f.content, ListingMap(listing[1..]), ListingMap(listing));
  }

  /** Mount followed by a dismount of the untouched directory leaves entries
      and usage as they were. */
  lemma MountDismountIdentity(s: State, listing: seq<Entry>)
    requires Accounted(s)
    requires NoDirectories(listing) && ListingMap(listing) == s.structure
    ensures AfterDismount(s, listing).structure == s.structure
    ensures AfterDismount(s, listing).usage == s.usage
  {
    if |listing| == 0 {
      TotalBytesEmpty();
    } else {
      forall i | 0 <= i < |listing| ensures listing[i].name in s.structure {
        assert Listed(listing, listing[i].name);
      }
      DismountKnownNames(s, listing);
    }
  }

  /** Deleting one mounted file drops exactly that key and exactly its recorded size. */
  lemma DismountAfterDelete(s: State, listing: seq<Entry>, name: string)
    requires Accounted(s) && name in s.structure
    requires NoDirectories(listing) && ListingMap(listing) == s.structure - {name}
    ensures AfterDismount(s, listing).structure == s.structure - {name}
    ensures AfterDismount(s, listing).usage == s.usage - KB(|s.structure[name]|)
  {
    TotalBytesRemove(s.structure, name);
    if |listing| == 0 {
      TotalBytesEmpty();
    } else {
      forall i | 0 <= i < |listing| ensures listing[i].name in s.structure {
        assert Listed(listing, listing[i].name);
      }
      DismountKnownNames(s, listing);
    }
  }

  /** Editing one mounted file moves usage by exactly the length change and
      stores the edited content. */
  lemma DismountAfterEdit(s: State, listing: seq<Entry>, name: string, content: seq<byte>)
    requires Accounted(s) && name in s.structure
    requires NoDirectories(listing) && ListingMap(listing) == s.structure[name := content]
    ensures AfterDismount(s, listing).structure == s.structure[name := content]
    ensures AfterDismount(s, listing).usage == s.usage + KB(|content|) - KB(|s.structure[name]|)
  {
    TotalBytesReplace(s.structure, name, content);
    assert Listed(listing, name);
    forall i | 0 <= i < |listing| ensures listing[i].name in s.structure {
      assert Listed(listing, listing[i].name);
    }
    DismountKnownNames(s, listing);
  }

  /** A new name in the directory faces the same admission rule as
      writeFileInContainer, checked against the usage from before any unseen
      key is dropped; the dropped keys go in any case. */
  lemma DismountSingleNewFile(s: State, file: Entry)
    requires Accounted(s)
    requires !file.isDir && file.name !in s.structure
    ensures var r := AfterDismount(s, [file]);
            if Admit(s, file.name, file.content) == Admitted
            then r.structure == map[file.name := file.content] && r.usage == KB(|file.content|)
            else r.structure == map[] && r.usage == 0.0
  {
    assert PlainFiles([file]) == [file];
    assert [file][1..] == [];
    var u := Ingest(s, file);
    var v := AfterRemoveUnseen(u, [file]);
    assert AfterSave(s, [file], [file]) == AfterSave(v, [], [file]);
    assert AfterDismount(s, [file]) == v;
    assert Listed([file], file.name) by { assert [file][0].name == file.name; }
    forall k | k in v.structure ensures k == file.name {
      var i :| 0 <= i < 1 && [file][i].name == k;
    }
    if Admit(s, file.name, file.content) == Admitted {
      assert v.structure == map[file.name := file.content];
      TotalBytesInsert(map[], file.name, file.content);
      assert map[][file.name := file.content] == map[file.name := file.content];
    } else {
      assert v.structure == map[];
    }
    TotalBytesEmpty();
  }

  /** Renaming the only file of a full container while mounted loses it: the
      new name is refused against the old usage, then the old name is dropped. */
  lemma DismountRenameInFullContainer()
    ensures var s := State("c", "tmp", 1.0, 1.0, map["a" := seq(1024, _ => 0)]);
            var r := AfterDismount(s, [Entry("b", false, seq(1024, _ => 0))]);
            Accounted(s) && r.structure == map[] && r.usage == 0.0
  {
    var m: map<string, seq<byte>> := map["a" := seq(1024, _ => 0)];
    assert m == map[][("a") := m["a"]];
    TotalBytesInsert(map[], "a", m["a"]);
    TotalBytesEmpty();
    var s := State("c", "tmp", 1.0, 1.0, m);
    var file := Entry("b", false, seq(1024, _ => 0));
    assert Admit(s, file.name, file.content) == CapacityExceeded;
    DismountSingleNewFile(s, file);
  }

  // ---------------------------------------------------------------------
  // One regular file of an arbitrary listing

  /** Splitting the listing splits the files sent down the channel. */
  lemma {:induction false} PlainFilesAppend(a: seq<Entry>, b: seq<Entry>)
    ensures PlainFiles(a + b) == PlainFiles(a) + PlainFiles(b)
    decreases |a|
  {
    if a == [] {
      assert a + b == b;
    } else {
      assert (a + b)[0] == a[0] && (a + b)[1..] == a[1..] + b;
      PlainFilesAppend(a[1..], b);
      if !a[0].isDir {
        assert [a[0]] + PlainFiles(a[1..]) + PlainFiles(b) == [a[0]] + (PlainFiles(a[1..]) + PlainFiles(b));
      }
    }
  }

  /** saveContainer over two batches of files is the second batch after the first. */
  lemma {:induction false} SaveAppend(s: State, a: seq<Entry>, b: seq<Entry>, listing: seq<Entry>)
    ensures AfterSave(s, a + b, listing) == AfterSave(AfterSave(s, a, listing), b, listing)
    decreases |a|
  {
    if a == [] {
      assert a + b == b;
    } else {
      assert (a + b)[0] == a[0] && (a + b)[1..] == a[1..] + b;
      SaveAppend(AfterRemoveUnseen(Ingest(s, a[0]), listing), a[1..], b, listing);
    }
  }

  /** Files with other names leave a listed key as it is: present or absent,
      with its content. */
  lemma {:induction false} SaveLeavesOthers(t: State, files: seq<Entry>, listing: seq<Entry>, k: string)
    requires Listed(listing, k) && !Listed(files, k)
    ensures k in AfterSave(t, files, listing).structure <==> k in t.structure
    ensures k in t.structure ==> AfterSave(t, files, listing).structure[k] == t.structure[k]
    decreases |files|
  {
    if files != [] {
      var g := files[0];
      assert g.name != k by { assert files[0].name == g.name; }
      var u := Ingest(t, g);
      assert (k in u.structure <==> k in t.structure) && (k in t.structure ==> u.structure[k] == t.structure[k]);
      var v := AfterRemoveUnseen(u, listing);
      forall m | 0 <= m < |files[1..]| ensures files[1..][m].name != k {
        assert files[1..][m] == files[m + 1];
      }
      SaveLeavesOthers(v, files[1..], listing, k);
    }
  }

  /** The file at position j of a saveContainer batch whose name no later file
      repeats: it ends up stored exactly when its name was already a key when
      its turn came or the admission rule let it in then, and it is stored
      with its own content. */
  lemma SaveFileOutcome(s: State, files: seq<Entry>, listing: seq<Entry>, j: nat)
    requires j < |files| && Listed(listing, files[j].name) && !Listed(files[j + 1..], files[j].name)
    ensures var f := files[j];
            var p := AfterSave(s, files[..j], listing);
            var r := AfterSave(s, files, listing);
            (f.name in r.structure <==> f.name in p.structure || Admit(p, f.name, f.content) == Admitted) &&
            (f.name in r.structure ==> r.structure[f.name] == f.content)
  {
    var f := files[j];
    var p := AfterSave(s, files[..j], listing);
    assert files == files[..j] + files[j..];
    SaveAppend(s, files[..j], files[j..], listing);
    assert files[j..][0] == f && files[j..][1..] == files[j + 1..];
    var q := AfterRemoveUnseen(Ingest(p, f), listing);
    assert AfterSave(p, files[j..], listing) == AfterSave(q, files[j + 1..], listing);
    SaveLeavesOthers(q, files[j + 1..], listing, f.name);
  }

  /** No regular file before position i carries listing[i]'s name. */
  lemma NotListedBefore(listing: seq<Entry>, i: nat)
    requires DistinctNames(listing) && i < |listing|
    ensures !Listed(PlainFiles(listing[..i]), listing[i].name)
  {
    var part := listing[..i];
    var files := PlainFiles(part);
    forall m | 0 <= m < |files| ensures files[m].name != listing[i].name {
      assert files[m] in part;
      var n :| 0 <= n < |part| && part[n] == files[m];
      assert listing[n] == part[n];
    }
  }

  /** No regular file after position i carries listing[i]'s name. */
  lemma NotListedAfter(listing: seq<Entry>, i: nat)
    requires DistinctNames(listing) && i < |listing|
    ensures !Listed(PlainFiles(listing[i + 1..]), listing[i].name)
  {
    var part := listing[i + 1..];
    var files := PlainFiles(part);
    forall m | 0 <= m < |files| ensures files[m].name != listing[i].name {
      assert files[m] in part;
      var n :| 0 <= n < |part| && part[n] == files[m];
      assert listing[i + 1 + n] == part[n];
    }
  }

  lemma PlainFilesOfRegular(f: Entry, b: seq<Entry>)
    requires !f.isDir
    ensures PlainFiles([f] + b) == [f] + PlainFiles(b)
  {
    assert ([f] + b)[0] == f && ([f] + b)[1..] == b;
  }

  lemma SplitAround(listing: seq<Entry>, i: nat)
    requires i < |listing|
    ensures listing == listing[..i] + ([listing[i]] + listing[i + 1..])
  {
  }

  /** The files sent down the channel around a regular file of the listing. */
  lemma PlainFilesAround(listing: seq<Entry>, i: nat)
    requires i < |listing| && !listing[i].isDir
    ensures PlainFiles(listing) == PlainFiles(listing[..i]) + ([listing[i]] + PlainFiles(listing[i + 1..]))
  {
    SplitAround(listing, i);
    PlainFilesAppend(listing[..i], [listing[i]] + listing[i + 1..]);
    PlainFilesOfRegular(listing[i], listing[i + 1..]);
  }

  /** Dismounting any listing with distinct names, for each regular file f:
      f is stored at the end exactly when its name was stored before the
      dismount or the admission rule admitted it against the state its turn
      found (the files before it in the listing already consumed); when it is
      stored, it is stored with its own content; and a new name only gets in
      if it fits the quota on its own. */
  lemma DismountFileOutcome(s: State, listing: seq<Entry>, i: nat)
    requires DistinctNames(listing)
    requires i < |listing| && !listing[i].isDir
    ensures var f := listing[i];
            var p := AfterSave(s, PlainFiles(listing[..i]), listing);
            var r := AfterDismount(s, listing);
            (f.name in p.structure <==> f.name in s.structure) &&
            (f.name in r.structure <==> f.name in s.structure || Admit(p, f.name, f.content) == Admitted) &&
            (f.name in r.structure ==> r.structure[f.name] == f.content) &&
            (f.name !in s.structure && f.name in r.structure ==> KB(|f.content|) <= s.size)
  {
    var f := listing[i];
    var before := PlainFiles(listing[..i]);
    var files := before + ([f] + PlainFiles(listing[i + 1..]));
    PlainFilesAround(listing, i);
    var j := |before|;
    assert files[..j] == before && files[j] == f && files[j + 1..] == PlainFiles(listing[i + 1..]);
    NotListedBefore(listing, i);
    NotListedAfter(listing, i);
    assert Listed(listing, f.name);
    SaveFileOutcome(s, files, listing, j);
  }
}
