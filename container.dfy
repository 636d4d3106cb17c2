// The Container record and its capacity accounting.
module ContainerModel {
  import opened Bytes

  /** Size in kilobytes of `n` bytes, as getFileSize and updateContainer
      compute it (bytes / 1024), here without floating-point rounding. */
  function KB(n: nat): (r: real) {
    n as real / 1024.0
  }

  /** The value of a container's five fields at one moment. */
  datatype State = State(
    name: string,
    dirPath: string,
    size: real,                          // quota, kB
    usage: real,                         // running total, kB
    structure: map<string, seq<byte>>)   // base file name -> content

  /** Total number of content bytes over the keys `ks` of `m`. */
  ghost function BytesOf(m: map<string, seq<byte>>, ks: set<string>): nat
    requires ks <= m.Keys
    decreases ks
  {
    if ks == {} then 0
    else
      var k :| k in ks;
      |m[k]| + BytesOf(m, ks - {k})
  }

  /** Total number of content bytes stored in a structure map. */
  ghost function TotalBytes(m: map<string, seq<byte>>): nat {
    BytesOf(m, m.Keys)
  }

  /** `usage` is exactly the size of everything the container holds. */
  ghost predicate Accounted(s: State) {
    s.usage == KB(TotalBytes(s.structure))
  }

  /** The quota is respected. */
  ghost predicate WithinQuota(s: State) {
    s.usage <= s.size
  }

  /** The sum may be taken by peeling off any key first. */
  lemma {:induction false} BytesOfPick(m: map<string, seq<byte>>, ks: set<string>, k: string)
    requires ks <= m.Keys && k in ks
    ensures BytesOf(m, ks) == |m[k]| + BytesOf(m, ks - {k})
    decreases ks
  {
    var j :| j in ks && BytesOf(m, ks) == |m[j]| + BytesOf(m, ks - {j});
    if j != k {
      BytesOfPick(m, ks - {j}, k);
      assert ks - {j} - {k} == ks - {k} - {j};
      BytesOfPick(m, ks - {k}, j);
    }
  }

  /** Only the values under the summed keys matter. */
  lemma {:induction false} BytesOfAgree(m1: map<string, seq<byte>>, m2: map<string, seq<byte>>, ks: set<string>)
    requires ks <= m1.Keys && ks <= m2.Keys
    requires forall k :: k in ks ==> m1[k] == m2[k]
    ensures BytesOf(m1, ks) == BytesOf(m2, ks)
    decreases ks
  {
    if ks != {} {
      var k :| k in ks;
      BytesOfPick(m1, ks, k);
      BytesOfPick(m2, ks, k);
      BytesOfAgree(m1, m2, ks - {k});
    }
  }

  /** Sums over disjoint key sets add up. */
  lemma {:induction false} BytesOfUnion(m: map<string, seq<byte>>, a: set<string>, b: set<string>)
    requires a <= m.Keys && b <= m.Keys && a !! b
    ensures BytesOf(m, a + b) == BytesOf(m, a) + BytesOf(m, b)
    decreases a
  {
    if a == {} {
      assert a + b == b;
    } else {
      var k :| k in a;
      BytesOfPick(m, a, k);
      BytesOfPick(m, a + b, k);
      assert (a + b) - {k} == (a - {k}) + b;
      BytesOfUnion(m, a - {k}, b);
    }
  }

  lemma TotalBytesEmpty()
    ensures TotalBytes(map[]) == 0
  {
  }

  /** Removing a key takes away exactly its content's length. */
  lemma TotalBytesRemove(m: map<string, seq<byte>>, k: string)
    requires k in m
    ensures TotalBytes(m) == |m[k]| + TotalBytes(m - {k})
  {
    BytesOfPick(m, m.Keys, k);
    assert (m - {k}).Keys == m.Keys - {k};
    BytesOfAgree(m, m - {k}, m.Keys - {k});
  }

  /** Binding a new key adds exactly its content's length. */
  lemma TotalBytesInsert(m: map<string, seq<byte>>, k: string, v: seq<byte>)
    requires k !in m
    ensures TotalBytes(m[k := v]) == TotalBytes(m) + |v|
  {
    TotalBytesRemove(m[k := v], k);
    assert m[k := v] - {k} == m;
  }

  /** Rebinding a key moves the total by the difference of the lengths. */
  lemma TotalBytesReplace(m: map<string, seq<byte>>, k: string, v: seq<byte>)
    requires k in m
    ensures TotalBytes(m[k := v]) == TotalBytes(m) - |m[k]| + |v|
  {
    TotalBytesRemove(m[k := v], k);
    TotalBytesRemove(m, k);
    assert m[k := v] - {k} == m - {k};
  }

  /** Splitting a map by any key predicate splits its total. */
  lemma TotalBytesSplit(m: map<string, seq<byte>>, keep: set<string>)
    ensures TotalBytes(m) ==
            TotalBytes(map k | k in m && k in keep :: m[k]) + TotalBytes(map k | k in m && k !in keep :: m[k])
  {
    var kept := map k | k in m && k in keep :: m[k];
    var dropped := map k | k in m && k !in keep :: m[k];
    assert m.Keys == kept.Keys + dropped.Keys;
    BytesOfUnion(m, kept.Keys, dropped.Keys);
    BytesOfAgree(m, kept, kept.Keys);
    BytesOfAgree(m, dropped, dropped.Keys);
  }

  /** The Go struct, which every operation mutates in place. */
  class Container {
    var name: string
    var dirPath: string
    var size: real
    var usage: real
    var structure: map<string, seq<byte>>

    /** The five fields, and nothing else, make up a container's state. */
    function Value(): State
      reads this
    {
      State(name, dirPath, size, usage, structure)
    }

    /** The struct literal `&Container{name, dirPath, size, usage, structure}`. */
    constructor (name: string, dirPath: string, size: real, usage: real, structure: map<string, seq<byte>>)
      ensures Value() == State(name, dirPath, size, usage, structure)
    {
      this.name := name;
      this.dirPath := dirPath;
      this.size := size;
      this.usage := usage;
      this.structure := structure;
    }
  }
}
