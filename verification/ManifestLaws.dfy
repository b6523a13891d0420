/** What the bytes of a manifest are, position by position, and what its summary tells apart
    (src/control_plane.rs). */
module ManifestLaws {

  import opened Bytes
  import opened LaneWire
  import opened Fingerprint
  import opened Manifest

  // ---------------------------------------------------------------- layout

  /** A path is two bytes per UTF-16 unit, high byte first. */
  lemma {:induction false} UnitsAt(p: seq<Unit>, i: nat)
    requires i < |p|
    ensures |Flat(UnitWire, p)| == 2 * |p|
    ensures Flat(UnitWire, p)[2 * i] == p[i] / 256 && Flat(UnitWire, p)[2 * i + 1] == p[i] % 256
  {
    UnitsLength(p);
    var init, last := p[..|p| - 1], p[|p| - 1];
    UnitsLength(init);
    if i < |p| - 1 {
      UnitsAt(init, i);
    } else {
      BESnoc(last, 2);
      BESnoc(last / 256, 1);
    }
  }

  function ClassNumber(c: FileClass): nat {
    match c
    case Tiny => 1
    case Medium => 2
    case Large => 3
  }

  /** The 21 bytes of a file after its path: size, time and attributes, high byte first, then the class. */
  lemma MetadataAt(m: Metadata)
    ensures var w := MetadataWire(m);
      && |w| == 21 && w[..8] == BE(m.size, 8) && w[8..16] == BE(m.lastWriteTime, 8)
      && w[16..20] == BE(m.attributes, 4) && w[20] == ClassNumber(m.kind)
  {
  }

  /** What an entry feeds to the fingerprint: its kind, its path, and for a file its metadata. */
  lemma HashedAt(x: Node)
    ensures var w, n := Hashed(x), 1 + 2 * |x.path|;
      && |w| == (if x.Directory? then n else n + 21)
      && w[0] == (if x.Directory? then 1 else 2)
      && (forall i | 0 <= i < |x.path| :: w[1 + 2 * i] == x.path[i] / 256 && w[2 + 2 * i] == x.path[i] % 256)
      && (x.File? ==>
          && w[n..n + 8] == BE(x.metadata.size, 8) && w[n + 8..n + 16] == BE(x.metadata.lastWriteTime, 8)
          && w[n + 16..n + 20] == BE(x.metadata.attributes, 4) && w[n + 20] == ClassNumber(x.metadata.kind))
  {
    UnitsLength(x.path);
    forall i | 0 <= i < |x.path|
      ensures Hashed(x)[1 + 2 * i] == x.path[i] / 256 && Hashed(x)[2 + 2 * i] == x.path[i] % 256
    {
      UnitsAt(x.path, i);
    }
    if x.File? {
      MetadataAt(x.metadata);
      Shifted([2] + Flat(UnitWire, x.path), MetadataWire(x.metadata));
    }
  }

  lemma Shifted(a: seq<byte>, w: seq<byte>)
    requires |w| == 21
    ensures var s, n := a + w, |a|;
      && s[n..n + 8] == w[..8] && s[n + 8..n + 16] == w[8..16] && s[n + 16..n + 20] == w[16..20]
      && s[n + 20] == w[20]
  {
  }

  /** An entry on the wire: the number of units, the path, and for a file its metadata. */
  lemma NodeAt(x: Node)
    ensures var w, n := NodeWire(x), 4 + 2 * |x.path|;
      && |w| == (if x.Directory? then n else n + 21) && w[..4] == BE(|x.path|, 4)
      && (forall i | 0 <= i < |x.path| :: w[4 + 2 * i] == x.path[i] / 256 && w[5 + 2 * i] == x.path[i] % 256)
      && (x.File? ==>
          && w[n..n + 8] == BE(x.metadata.size, 8) && w[n + 8..n + 16] == BE(x.metadata.lastWriteTime, 8)
          && w[n + 16..n + 20] == BE(x.metadata.attributes, 4) && w[n + 20] == ClassNumber(x.metadata.kind))
  {
    UnitsLength(x.path);
    forall i | 0 <= i < |x.path|
      ensures NodeWire(x)[4 + 2 * i] == x.path[i] / 256 && NodeWire(x)[5 + 2 * i] == x.path[i] % 256
    {
      UnitsAt(x.path, i);
    }
    if x.File? {
      MetadataAt(x.metadata);
      Shifted(PathWire(x.path), MetadataWire(x.metadata));
    }
  }

  /** The head of a manifest: the message, the number of files and of directories, the bytes of all files and
      the fingerprint; then the entries, directories first. */
  lemma ManifestAt(t: Tree)
    ensures var w := ManifestWire(t);
      && |w| >= 33 && w[0] == 0x10 && w[1..9] == BE(|t.files|, 8) && w[9..17] == BE(|t.directories|, 8)
      && w[17..25] == BE(SummaryOf(t).totalFileBytes, 8) && w[25..33] == BE(SummaryOf(t).fingerprint, 8)
      && w[33..] == Flat<Node>(NodeWire, t.directories) + Flat<Node>(NodeWire, t.files)
  {
    var s := SummaryOf(t);
    assert SummaryWire(s)[..8] == BE(s.entries, 8) && SummaryWire(s)[8..16] == BE(s.directories, 8);
    assert SummaryWire(s)[16..24] == BE(s.totalFileBytes, 8) && SummaryWire(s)[24..32] == BE(s.fingerprint, 8);
    Head33(SummaryWire(s), NodesOf(t));
  }

  lemma Head33(a: seq<byte>, b: seq<byte>)
    requires |a| == 32
    ensures var w := [MESSAGE_MANIFEST] + (a + b);
      && w[1..9] == a[..8] && w[9..17] == a[8..16] && w[17..25] == a[16..24] && w[25..33] == a[24..32]
      && w[33..] == b
  {
  }

  // ---------------------------------------------------------------- totals

  /** The bytes of a list of entries add up, a directory has none, and a file has its size. */
  lemma {:induction false} TotalsAddUp(xs: seq<Node>, ys: seq<Node>)
    ensures TotalSize(xs + ys) == TotalSize(xs) + TotalSize(ys)
    ensures forall p :: TotalSize([Directory(p)]) == 0
    ensures forall p, m :: TotalSize([File(p, m)]) == m.size
  {
    forall x: Node
      ensures TotalSize([x]) == if x.File? then x.metadata.size else 0
    {
      assert [x][..0] == [] && TotalSize([]) == 0;
    }
    if ys == [] {
      assert xs + ys == xs;
    } else {
      TotalsAddUp(xs, ys[..|ys| - 1]);
      assert (xs + ys)[..|xs + ys| - 1] == xs + ys[..|ys| - 1];
    }
  }

  // ---------------------------------------------------------------- one byte

  /** `a` and `b` have one length and differ in exactly one byte, at `i`. */
  predicate ApartAt(a: seq<byte>, b: seq<byte>, i: nat) {
    i < |a| == |b| && a[i] != b[i] && forall k | 0 <= k < |a| && k != i :: a[k] == b[k]
  }

  lemma ApartInside(p: seq<byte>, a: seq<byte>, b: seq<byte>, s: seq<byte>, i: nat)
    requires ApartAt(a, b, i)
    ensures ApartAt(p + a + s, p + b + s, |p| + i)
  {
  }

  /** Two entries that differ in one byte of unit `u` of their paths: in its high or its low half. */
  predicate PathByteDiffers(x: Node, y: Node, u: nat) {
    && x.File? == y.File? && (x.File? ==> x.metadata == y.metadata)
    && u < |x.path| == |y.path| && (forall k | 0 <= k < |x.path| && k != u :: x.path[k] == y.path[k])
    && x.path[u] != y.path[u] && (x.path[u] / 256 == y.path[u] / 256 || x.path[u] % 256 == y.path[u] % 256)
  }

  /** Two files with the same path that differ in one byte of one field, byte `i` of its encoding. */
  predicate FieldByteDiffers(x: Node, y: Node, i: nat) {
    && x.File? && y.File? && x.path == y.path
    && (var m, n := x.metadata, y.metadata;
        || (ApartAt(BE(m.size, 8), BE(n.size, 8), i) && n == m.(size := n.size))
        || (ApartAt(BE(m.lastWriteTime, 8), BE(n.lastWriteTime, 8), i) && n == m.(lastWriteTime := n.lastWriteTime))
        || (ApartAt(BE(m.attributes, 4), BE(n.attributes, 4), i) && n == m.(attributes := n.attributes))
        || (m.kind != n.kind && n == m.(kind := n.kind)))
  }

  lemma PathByteIsHashed(x: Node, y: Node, u: nat) returns (i: nat)
    requires PathByteDiffers(x, y, u)
    ensures ApartAt(Hashed(x), Hashed(y), i)
  {
    var a, b := Flat(UnitWire, x.path), Flat(UnitWire, y.path);
    var j := if x.path[u] / 256 == y.path[u] / 256 then 2 * u + 1 else 2 * u;
    UnitsApart(x.path, y.path, u, j);
    var kind := [if x.Directory? then MANIFEST_KIND_DIRECTORY else MANIFEST_KIND_FILE];
    var rest := if x.File? then MetadataWire(x.metadata) else [];
    ApartInside(kind, a, b, rest, j);
    assert Hashed(x) == kind + a + rest && Hashed(y) == kind + b + rest;
    i := 1 + j;
  }

  lemma UnitsApart(p: seq<Unit>, q: seq<Unit>, u: nat, j: nat)
    requires u < |p| == |q| && p[u] != q[u] && forall k | 0 <= k < |p| && k != u :: p[k] == q[k]
    requires p[u] / 256 == q[u] / 256 || p[u] % 256 == q[u] % 256
    requires j == if p[u] / 256 == q[u] / 256 then 2 * u + 1 else 2 * u
    ensures ApartAt(Flat(UnitWire, p), Flat(UnitWire, q), j)
  {
    var a, b := Flat(UnitWire, p), Flat(UnitWire, q);
    UnitsAt(p, u);
    UnitsAt(q, u);
    forall k | 0 <= k < |a| && k != j
      ensures a[k] == b[k]
    {
      UnitsAt(p, k / 2);
      UnitsAt(q, k / 2);
    }
  }

  lemma FieldByteIsHashed(x: Node, y: Node, i: nat) returns (j: nat)
    requires FieldByteDiffers(x, y, i)
    ensures ApartAt(Hashed(x), Hashed(y), j)
  {
    var m, n := x.metadata, y.metadata;
    var size, time, attributes, kind :=
      BE(m.size, 8), BE(m.lastWriteTime, 8), BE(m.attributes, 4), [ClassToWire(m.kind)];
    var k;
    if m.size != n.size {
      k := i;
      ApartInside([], size, BE(n.size, 8), time + (attributes + kind), i);
      Regroup([], size, time + (attributes + kind));
      Regroup([], BE(n.size, 8), time + (attributes + kind));
    } else if m.lastWriteTime != n.lastWriteTime {
      k := 8 + i;
      ApartInside(size, time, BE(n.lastWriteTime, 8), attributes + kind, i);
      Regroup(size, time, attributes + kind);
      Regroup(size, BE(n.lastWriteTime, 8), attributes + kind);
    } else if m.attributes != n.attributes {
      k := 16 + i;
      ApartInside(size + time, attributes, BE(n.attributes, 4), kind, i);
      Regroup(size, time, attributes + kind);
      Regroup(size, time, BE(n.attributes, 4) + kind);
      Regroup(size + time, attributes, kind);
      Regroup(size + time, BE(n.attributes, 4), kind);
    } else {
      k := 20;
      MetadataAt(m);
      MetadataAt(n);
      LastApart(MetadataWire(m), MetadataWire(n));
    }
    assert ApartAt(MetadataWire(m), MetadataWire(n), k);
    var head := [MANIFEST_KIND_FILE] + Flat(UnitWire, x.path);
    ApartInside(head, MetadataWire(m), MetadataWire(n), [], k);
    assert Hashed(x) == head + MetadataWire(m) + [] && Hashed(y) == head + MetadataWire(n) + [];
    j := |head| + k;
  }

  lemma Regroup(a: seq<byte>, b: seq<byte>, c: seq<byte>)
    ensures a + b + c == a + (b + c) && (a == [] ==> a + b + c == b + c)
  {
  }

  lemma LastApart(a: seq<byte>, b: seq<byte>)
    requires |a| == |b| == 21 && a[20] != b[20] && a[..8] == b[..8] && a[8..16] == b[8..16] && a[16..20] == b[16..20]
    ensures ApartAt(a, b, 20)
  {
    forall k | 0 <= k < 20
      ensures a[k] == b[k]
    {
      assert k < 8 ==> a[k] == a[..8][k] && b[k] == b[..8][k];
      assert 8 <= k < 16 ==> a[k] == a[8..16][k - 8] && b[k] == b[8..16][k - 8];
      assert 16 <= k ==> a[k] == a[16..20][k - 16] && b[k] == b[16..20][k - 16];
    }
  }

  /** The summary sees it when a single byte of a single entry changes: one byte of one unit of its path, or one
      byte of its size, time, attributes or class. `k` is the entry, counting the directories first. */
  lemma OneByteOfAnEntryIsSeen(t: Tree, u: Tree, k: nat, i: nat)
    requires |t.directories| == |u.directories| && |t.files| == |u.files| && k < |AllNodes(t)|
    requires forall j | 0 <= j < |AllNodes(t)| && j != k :: AllNodes(t)[j] == AllNodes(u)[j]
    requires var x, y := AllNodes(t)[k], AllNodes(u)[k]; PathByteDiffers(x, y, i) || FieldByteDiffers(x, y, i)
    ensures SummaryOf(t) != SummaryOf(u)
  {
    var ts, us := AllNodes(t), AllNodes(u);
    var x, y := ts[k], us[k];
    var j;
    if PathByteDiffers(x, y, i) {
      j := PathByteIsHashed(x, y, i);
    } else {
      j := FieldByteIsHashed(x, y, i);
    }
    AroundEntry(t, k);
    AroundEntry(u, k);
    assert ts[..k] == us[..k] && ts[k + 1..] == us[k + 1..];
    ApartInside(HashedNodes(ts[..k]), Hashed(x), Hashed(y), HashedNodes(ts[k + 1..]), j);
    SummarySeesOneByte(t, u, |HashedNodes(ts[..k])| + j);
  }

  lemma AroundEntry(t: Tree, k: nat)
    requires k < |AllNodes(t)|
    ensures HashedTree(t) ==
      HashedNodes(AllNodes(t)[..k]) + Hashed(AllNodes(t)[k]) + HashedNodes(AllNodes(t)[k + 1..])
  {
    FlatAppend<Node>(Hashed, t.directories, t.files);
    FlatAround(AllNodes(t), k);
  }

  lemma FlatAround(all: seq<Node>, k: nat)
    requires k < |all|
    ensures HashedNodes(all) == HashedNodes(all[..k]) + Hashed(all[k]) + HashedNodes(all[k + 1..])
  {
    var before, after := all[..k] + [all[k]], all[k + 1..];
    assert all == before + after;
    FlatAppend<Node>(Hashed, before, after);
    FlatSnoc<Node>(Hashed, all[..k], all[k]);
  }
}
