/** The manifest of a directory tree: its wire format, its summary and the two sides that exchange it
    (src/control_plane.rs). */
module Manifest {

  import opened Bytes
  import opened LaneWire
  import opened Fingerprint

  const MESSAGE_MANIFEST: byte := 0x10
  const MAX_PATH_UTF16_UNITS: nat := 1024 * 1024
  const MANIFEST_KIND_DIRECTORY: byte := 1
  const MANIFEST_KIND_FILE: byte := 2

  type Unit = u: nat | u < U16
  type Word32 = w: nat | w < U32

  datatype FileClass = Tiny | Medium | Large

  datatype Metadata = Metadata(size: Word, lastWriteTime: Word, attributes: Word32, kind: FileClass)

  datatype Node = Directory(path: seq<Unit>) | File(path: seq<Unit>, metadata: Metadata)

  type DirectoryNode = x: Node | x.Directory? witness Directory([])
  type FileNode = x: Node | x.File? witness File([], Metadata(0, 0, 0, Tiny))

  datatype Tree = Tree(directories: seq<DirectoryNode>, files: seq<FileNode>)

  datatype Summary = Summary(entries: nat, directories: nat, totalFileBytes: nat, fingerprint: Word)

  /** The scanner's rules for a single path and for a whole tree, which both sides apply. */
  datatype Rules = Rules(path: seq<Unit> -> bool, tree: Tree -> bool)

  // ---------------------------------------------------------------- the wire format

  function UnitWire(u: Unit): seq<byte> {
    BE(u, 2)
  }

  function PathWire(p: seq<Unit>): seq<byte> {
    BE(|p|, 4) + Flat(UnitWire, p)
  }

  function ClassToWire(c: FileClass): byte {
    match c
    case Tiny => 1
    case Medium => 2
    case Large => 3
  }

  function ClassFromWire(b: byte): Option<FileClass> {
    if b == 1 then Some(Tiny) else if b == 2 then Some(Medium) else if b == 3 then Some(Large) else None
  }

  function MetadataWire(m: Metadata): seq<byte> {
    BE(m.size, 8) + (BE(m.lastWriteTime, 8) + (BE(m.attributes, 4) + [ClassToWire(m.kind)]))
  }

  function NodeWire(x: Node): seq<byte> {
    if x.Directory? then PathWire(x.path) else PathWire(x.path) + MetadataWire(x.metadata)
  }

  /** What a node adds to the stream under the fingerprint. */
  function Hashed(x: Node): seq<byte> {
    if x.Directory? then [MANIFEST_KIND_DIRECTORY] + Flat(UnitWire, x.path)
    else [MANIFEST_KIND_FILE] + Flat(UnitWire, x.path) + MetadataWire(x.metadata)
  }

  function NodesWire(xs: seq<Node>): seq<byte> {
    Flat<Node>(NodeWire, xs)
  }

  function HashedNodes(xs: seq<Node>): seq<byte> {
    Flat<Node>(Hashed, xs)
  }

  function Size(x: Node): nat {
    if x.Directory? then 0 else x.metadata.size
  }

  function TotalSize(xs: seq<Node>): nat {
    if xs == [] then 0 else TotalSize(xs[..|xs| - 1]) + Size(xs[|xs| - 1])
  }

  function HashedTree(t: Tree): seq<byte> {
    HashedNodes(t.directories) + HashedNodes(t.files)
  }

  function SummaryOf(t: Tree): Summary {
    Summary(|t.files|, |t.directories|, TotalSize(t.files), Fnv(FNV_OFFSET_BASIS, HashedTree(t)))
  }

  function SummaryWire(s: Summary): seq<byte> {
    BE(s.entries, 8) + (BE(s.directories, 8) + (BE(s.totalFileBytes, 8) + BE(s.fingerprint, 8)))
  }

  /** What follows the message byte and the summary. */
  function NodesOf(t: Tree): seq<byte> {
    NodesWire(t.directories) + NodesWire(t.files)
  }

  function ManifestWire(t: Tree): seq<byte> {
    [MESSAGE_MANIFEST] + (SummaryWire(SummaryOf(t)) + NodesOf(t))
  }

  predicate Countable(t: Tree) {
    |t.files| < U64 && |t.directories| < U64 && TotalSize(t.files) < U64
  }

  predicate PathFits(rules: Rules, p: seq<Unit>) {
    rules.path(p) && 0 < |p| <= MAX_PATH_UTF16_UNITS
  }

  predicate AllFit(rules: Rules, xs: seq<Node>) {
    forall i | 0 <= i < |xs| :: PathFits(rules, xs[i].path)
  }

  /** The trees that travel. */
  predicate Sendable(rules: Rules, t: Tree) {
    rules.tree(t) && Countable(t) && AllFit(rules, t.directories) && AllFit(rules, t.files)
  }

  /** Which trees travel, in plain terms: the tree and every path are legal, every path has between one and
      1048576 units, and the counts fit 64 bits. */
  lemma SendableMeans(rules: Rules, t: Tree)
    ensures Sendable(rules, t) <==>
      && rules.tree(t)
      && (forall i | 0 <= i < |t.directories| ::
            rules.path(t.directories[i].path) && 1 <= |t.directories[i].path| <= 1048576)
      && (forall i | 0 <= i < |t.files| :: rules.path(t.files[i].path) && 1 <= |t.files[i].path| <= 1048576)
      && |t.files| < 0x1_0000_0000_0000_0000 && |t.directories| < 0x1_0000_0000_0000_0000
      && TotalSize(t.files) < 0x1_0000_0000_0000_0000
  {
    assert forall i | 0 <= i < |t.directories| :: PathFits(rules, t.directories[i].path) <==>
      rules.path(t.directories[i].path) && 1 <= |t.directories[i].path| <= 1048576;
    assert forall i | 0 <= i < |t.files| :: PathFits(rules, t.files[i].path) <==>
      rules.path(t.files[i].path) && 1 <= |t.files[i].path| <= 1048576;
  }

  // ---------------------------------------------------------------- the summary

  lemma TotalSizeSnoc(xs: seq<Node>, x: Node)
    ensures TotalSize(xs + [x]) == TotalSize(xs) + Size(x)
  {
    assert (xs + [x])[..|xs|] == xs;
  }

  lemma {:induction false} TotalSizeGrows(xs: seq<Node>, i: nat)
    requires i <= |xs|
    ensures TotalSize(xs[..i]) <= TotalSize(xs)
  {
    if i == |xs| {
      assert xs[..i] == xs;
    } else {
      var init := xs[..|xs| - 1];
      TotalSizeGrows(init, i);
      assert init[..i] == xs[..i];
    }
  }

  lemma OneMoreUnit(hash: Word, done: seq<byte>, path: seq<Unit>, i: nat)
    requires i < |path|
    ensures Fnv(hash, done + Flat(UnitWire, path[..i + 1]))
         == Fnv(Fnv(hash, done + Flat(UnitWire, path[..i])), UnitWire(path[i]))
  {
    var before, unit := Flat(UnitWire, path[..i]), UnitWire(path[i]);
    assert path[..i + 1] == path[..i] + [path[i]];
    FlatSnoc(UnitWire, path[..i], path[i]);
    assert done + (before + unit) == done + before + unit;
    FnvAppend(hash, done + before, unit);
  }

  /** `hash_directory_entry` and `hash_manifest_entry`. */
  method HashNode(hash: Word, x: Node) returns (h: Word)
    ensures h == Fnv(hash, Hashed(x))
    ensures x.Directory? ==> h == Fnv(hash, [1] + Flat(UnitWire, x.path))
    ensures x.File? ==> h == Fnv(hash, [2] + Flat(UnitWire, x.path) + MetadataWire(x.metadata))
  {
    ghost var done := [if x.Directory? then MANIFEST_KIND_DIRECTORY else MANIFEST_KIND_FILE];
    h := HashBytes(hash, [if x.Directory? then MANIFEST_KIND_DIRECTORY else MANIFEST_KIND_FILE]);
    for i := 0 to |x.path|
      invariant h == Fnv(hash, done + Flat(UnitWire, x.path[..i]))
    {
      OneMoreUnit(hash, done, x.path, i);
      h := HashBytes(h, UnitWire(x.path[i]));
    }
    assert x.path[..|x.path|] == x.path;
    if x.File? {
      FnvAppend(hash, done + Flat(UnitWire, x.path), MetadataWire(x.metadata));
      h := HashMetadata(h, x.metadata);
    }
  }

  method HashMetadata(hash: Word, m: Metadata) returns (h: Word)
    ensures h == Fnv(hash, MetadataWire(m))
  {
    var size, time, attributes := BE(m.size, 8), BE(m.lastWriteTime, 8), BE(m.attributes, 4);
    h := HashBytes(hash, size);
    h := HashBytes(h, time);
    h := HashBytes(h, attributes);
    h := HashBytes(h, [ClassToWire(m.kind)]);
    FnvAppend(hash, size, time + (attributes + [ClassToWire(m.kind)]));
    FnvAppend(Fnv(hash, size), time, attributes + [ClassToWire(m.kind)]);
    FnvAppend(Fnv(Fnv(hash, size), time), attributes, [ClassToWire(m.kind)]);
  }

  /** One list of a summary: how many nodes, how many bytes, and the fingerprint so far. */
  method SummarizeNodes(xs: seq<Node>, hash: Word) returns (r: Result<(nat, nat, Word)>)
    ensures r.Ok? <==> |xs| < U64 && TotalSize(xs) < U64
    ensures r.Ok? ==> r.value == (|xs|, TotalSize(xs), Fnv(hash, HashedNodes(xs)))
    ensures r.Err? ==> r.error == Overflow
  {
    var count, total, h := 0, 0, hash;
    for i := 0 to |xs|
      invariant count == i < U64 && total == TotalSize(xs[..i]) < U64
      invariant h == Fnv(hash, HashedNodes(xs[..i]))
    {
      assert xs[..i] + [xs[i]] == xs[..i + 1];
      TotalSizeSnoc(xs[..i], xs[i]);
      TotalSizeGrows(xs, i + 1);
      FlatSnoc(Hashed, xs[..i], xs[i]);
      FnvAppend(hash, HashedNodes(xs[..i]), Hashed(xs[i]));
      if count + 1 >= U64 || total + Size(xs[i]) >= U64 {
        return Err(Overflow);
      }
      count := count + 1;
      total := total + Size(xs[i]);
      h := HashNode(h, xs[i]);
    }
    assert xs[..|xs|] == xs;
    r := Ok((count, total, h));
  }

  lemma {:induction false} DirectoriesHaveNoSize(xs: seq<DirectoryNode>)
    ensures TotalSize(xs) == 0
  {
    if xs != [] {
      DirectoriesHaveNoSize(xs[..|xs| - 1]);
    }
  }

  /** `summarize_manifest`. */
  method Summarize(rules: Rules, t: Tree) returns (r: Result<Summary>)
    ensures r == Err(InvalidData) <==> !rules.tree(t)
    ensures r == Err(Overflow) <==> rules.tree(t) && !Countable(t)
    ensures r.Ok? ==> r.value == SummaryOf(t)
    ensures r.Ok? ==>
      && r.value.entries == |t.files| && r.value.directories == |t.directories|
      && r.value.totalFileBytes == TotalSize(t.files)
    ensures r.Err? ==> r.error in {InvalidData, Overflow}
  {
    if !rules.tree(t) {
      return Err(InvalidData);
    }
    DirectoriesHaveNoSize(t.directories);
    var directories := SummarizeNodes(t.directories, FNV_OFFSET_BASIS);
    if directories.Err? {
      return Err(directories.error);
    }
    var files := SummarizeNodes(t.files, directories.value.2);
    if files.Err? {
      return Err(files.error);
    }
    FnvAppend(FNV_OFFSET_BASIS, HashedNodes(t.directories), HashedNodes(t.files));
    r := Ok(Summary(files.value.0, directories.value.0, files.value.1, files.value.2));
  }

  /** Two trees whose hashed streams differ in exactly one byte are told apart by their summaries. */
  lemma SummarySeesOneByte(t: Tree, u: Tree, i: nat)
    requires var s, v := HashedTree(t), HashedTree(u);
      i < |s| == |v| && s[i] != v[i] && forall k | 0 <= k < |s| && k != i :: s[k] == v[k]
    ensures SummaryOf(t) != SummaryOf(u)
  {
    OneByteIsSeen(FNV_OFFSET_BASIS, HashedTree(t), HashedTree(u), i);
  }

  // ---------------------------------------------------------------- sending

  /** `write_relative_path`. */
  method WritePath(rules: Rules, link: Link, p: seq<Unit>) returns (r: Result<()>)
    modifies link`outgoing
    ensures r.Ok? <==> PathFits(rules, p)
    ensures r.Ok? ==> link.outgoing == old(link.outgoing) + PathWire(p)
    ensures r == Err(InvalidData) <==> !rules.path(p)
    ensures r.Err? ==> r.error in {InvalidData, InvalidInput} && link.outgoing == old(link.outgoing)
  {
    if !rules.path(p) {
      return Err(InvalidData);
    }
    if p == [] || |p| > MAX_PATH_UTF16_UNITS {
      return Err(InvalidInput);
    }
    link.WriteAll(BE(|p|, 4));
    ghost var begun := link.outgoing;
    for i := 0 to |p|
      invariant link.outgoing == begun + Flat(UnitWire, p[..i])
    {
      link.WriteAll(UnitWire(p[i]));
      FlatSnoc(UnitWire, p[..i], p[i]);
      assert p[..i] + [p[i]] == p[..i + 1];
    }
    assert p[..|p|] == p;
    r := Ok(());
  }

  /** `write_directory_entry` and `write_manifest_entry`. */
  method WriteNode(rules: Rules, link: Link, x: Node) returns (r: Result<()>)
    modifies link`outgoing
    ensures r.Ok? <==> PathFits(rules, x.path)
    ensures r.Ok? ==> link.outgoing == old(link.outgoing) + NodeWire(x)
    ensures r.Err? ==> r.error in {InvalidData, InvalidInput} && link.outgoing == old(link.outgoing)
  {
    r := WritePath(rules, link, x.path);
    if r.Ok? && x.File? {
      link.WriteAll(BE(x.metadata.size, 8));
      link.WriteAll(BE(x.metadata.lastWriteTime, 8));
      link.WriteAll(BE(x.metadata.attributes, 4));
      link.WriteAll([ClassToWire(x.metadata.kind)]);
    }
  }

  /** All nodes of a list, or those before the first one refused: `k` of them. */
  method WriteNodes(rules: Rules, link: Link, xs: seq<Node>) returns (r: Result<()>, ghost k: nat)
    modifies link`outgoing
    ensures r.Ok? <==> AllFit(rules, xs)
    ensures k <= |xs| && (r.Ok? <==> k == |xs|)
    ensures AllFit(rules, xs[..k]) && link.outgoing == old(link.outgoing) + NodesWire(xs[..k])
    ensures r.Err? ==> r.error in {InvalidData, InvalidInput}
  {
    k := 0;
    for i := 0 to |xs|
      invariant k == i && AllFit(rules, xs[..i]) && link.outgoing == old(link.outgoing) + NodesWire(xs[..i])
    {
      r := WriteNode(rules, link, xs[i]);
      if r.Err? {
        return;
      }
      FlatSnoc<Node>(NodeWire, xs[..i], xs[i]);
      assert xs[..i] + [xs[i]] == xs[..i + 1];
      k := i + 1;
    }
    assert xs[..|xs|] == xs;
    r := Ok(());
  }

  method WriteSummary(link: Link, s: Summary)
    modifies link`outgoing
    ensures link.outgoing == old(link.outgoing) + SummaryWire(s)
  {
    link.WriteAll(BE(s.entries, 8));
    link.WriteAll(BE(s.directories, 8));
    link.WriteAll(BE(s.totalFileBytes, 8));
    link.WriteAll(BE(s.fingerprint, 8));
  }

  function AllNodes(t: Tree): seq<Node> {
    t.directories + t.files
  }

  /** A manifest that breaks off after `k` nodes: its summary announces them all. */
  function BrokenOff(t: Tree, k: nat): seq<byte>
    requires k <= |AllNodes(t)|
  {
    [MESSAGE_MANIFEST] + (SummaryWire(SummaryOf(t)) + NodesWire(AllNodes(t)[..k]))
  }

  /** The directories, then the files, up to the first node refused. */
  method WriteTree(rules: Rules, link: Link, t: Tree) returns (r: Result<()>, ghost k: nat)
    modifies link`outgoing
    ensures r.Ok? <==> AllFit(rules, t.directories) && AllFit(rules, t.files)
    ensures k <= |AllNodes(t)| && (r.Ok? <==> k == |AllNodes(t)|)
    ensures AllFit(rules, AllNodes(t)[..k])
    ensures link.outgoing == old(link.outgoing) + NodesWire(AllNodes(t)[..k])
    ensures r.Err? ==> r.error in {InvalidData, InvalidInput}
  {
    r, k := WriteNodes(rules, link, t.directories);
    if r.Err? {
      assert AllNodes(t)[..k] == t.directories[..k];
      return;
    }
    assert t.directories[..k] == t.directories;
    ghost var m;
    r, m := WriteNodes(rules, link, t.files);
    FilesFollow(rules, t, m);
    Associates(old(link.outgoing), NodesWire(t.directories), NodesWire(t.files[..m]));
    k := k + m;
  }

  lemma FilesFollow(rules: Rules, t: Tree, m: nat)
    requires m <= |t.files| && AllFit(rules, t.files[..m])
    ensures NodesWire(AllNodes(t)[..|t.directories| + m]) == NodesWire(t.directories) + NodesWire(t.files[..m])
    ensures AllFit(rules, t.directories) ==> AllFit(rules, AllNodes(t)[..|t.directories| + m])
  {
    assert AllNodes(t)[..|t.directories| + m] == t.directories + t.files[..m];
    FlatAppend<Node>(NodeWire, t.directories, t.files[..m]);
  }

  /** `send_manifest`: the whole manifest goes out exactly for the trees that can travel, and the result
      is the number of bytes it took. A tree without a summary writes nothing; one with a path that cannot
      be sent leaves a manifest that breaks off after the `k` nodes before it. */
  method SendManifest(rules: Rules, link: Link, t: Tree) returns (r: Result<nat>, ghost k: nat)
    modifies link`outgoing
    ensures r.Ok? <==> Sendable(rules, t)
    ensures r.Ok? ==> link.outgoing == old(link.outgoing) + ManifestWire(t) && r.value == |ManifestWire(t)|
    ensures r.Err? && rules.tree(t) && !Countable(t) ==> r.error == Overflow
    ensures r.Err? && !(rules.tree(t) && Countable(t)) ==> link.outgoing == old(link.outgoing)
    ensures r.Err? && rules.tree(t) && Countable(t) ==>
      && k < |AllNodes(t)| && AllFit(rules, AllNodes(t)[..k])
      && link.outgoing == old(link.outgoing) + BrokenOff(t, k)
  {
    k := 0;
    var summary := Summarize(rules, t);
    if summary.Err? {
      return Err(summary.error), k;
    }
    var begun := |link.outgoing|;
    link.WriteAll([MESSAGE_MANIFEST]);
    WriteSummary(link, summary.value);
    var done;
    done, k := WriteTree(rules, link, t);
    Continued(old(link.outgoing), [MESSAGE_MANIFEST], SummaryWire(summary.value), NodesWire(AllNodes(t)[..k]));
    if done.Err? {
      return Err(done.error), k;
    }
    WholeTree(t);
    r := Ok(|link.outgoing| - begun);
  }

  lemma Continued(before: seq<byte>, a: seq<byte>, b: seq<byte>, c: seq<byte>)
    ensures before + a + b + c == before + (a + (b + c))
  {
  }

  /** Nothing is missing from a manifest that breaks off at its end. */
  lemma WholeTree(t: Tree)
    ensures BrokenOff(t, |AllNodes(t)|) == ManifestWire(t)
  {
    assert AllNodes(t)[..|AllNodes(t)|] == t.directories + t.files;
    FlatAppend<Node>(NodeWire, t.directories, t.files);
  }

  // ---------------------------------------------------------------- receiving

  /** A big-endian integer of `k` bytes; the ghost `v` is any value the stream may begin with. */
  method ReadInt(link: Link, k: nat, ghost v: nat) returns (r: Result<nat>)
    modifies link`incoming
    ensures r.Ok? ==> r.value < Pow256(k) && After(old(link.incoming), BE(r.value, k), link.incoming)
    ensures v < Pow256(k) && BE(v, k) <= old(link.incoming) ==> r == Ok(v)
    ensures r.Err? ==> r.error == UnexpectedEof
  {
    ghost var before := link.incoming;
    if v < Pow256(k) && BE(v, k) <= before {
      FromBEOfBE(v, k);
      assert before[..k] == BE(v, k);
    }
    var bytes := link.ReadExact(k);
    if bytes.Err? {
      return Err(bytes.error);
    }
    BEOfFromBE(bytes.value);
    r := Ok(FromBE(bytes.value));
  }

  /** `read_relative_path`: whatever acceptable path the stream begins with, and nothing else. */
  method ReadPath(rules: Rules, link: Link, ghost sent: seq<Unit>) returns (r: Result<seq<Unit>>)
    modifies link`incoming
    ensures r.Ok? ==> PathFits(rules, r.value) && After(old(link.incoming), PathWire(r.value), link.incoming)
    ensures PathFits(rules, sent) && PathWire(sent) <= old(link.incoming) ==> r == Ok(sent)
    ensures r.Err? ==> r.error in {UnexpectedEof, InvalidData}
  {
    Widths();
    ghost var before := link.incoming;
    ghost var expected := PathFits(rules, sent) && PathWire(sent) <= before;
    var count := ReadInt(link, 4, |sent|);
    if count.Err? {
      return Err(count.error);
    }
    if count.value == 0 || count.value > MAX_PATH_UTF16_UNITS {
      return Err(InvalidData);
    }
    ghost var stream := link.incoming;
    if expected {
      PrefixAfter(before, BE(|sent|, 4), Flat(UnitWire, sent), stream);
    }
    var units := ReadUnits(link, count.value, sent);
    if units.Err? {
      return Err(units.error);
    }
    AfterAgain(before, BE(count.value, 4), Flat(UnitWire, units.value), stream, link.incoming);
    if !rules.path(units.value) {
      return Err(InvalidData);
    }
    r := units;
  }

  method ReadUnits(link: Link, count: nat, ghost sent: seq<Unit>) returns (r: Result<seq<Unit>>)
    modifies link`incoming
    ensures r.Ok? ==>
      |r.value| == count && After(old(link.incoming), Flat(UnitWire, r.value), link.incoming)
    ensures |sent| == count && Flat(UnitWire, sent) <= old(link.incoming) ==> r == Ok(sent)
    ensures r.Err? ==> r.error == UnexpectedEof
  {
    Widths();
    ghost var stream := link.incoming;
    ghost var expected := |sent| == count && Flat(UnitWire, sent) <= stream;
    var units: seq<Unit> := [];
    for i := 0 to count
      invariant |units| == i && After(stream, Flat(UnitWire, units), link.incoming)
      invariant expected ==> units <= sent
    {
      ghost var here := link.incoming;
      if expected {
        NextElement(UnitWire, sent, units, stream, here);
      }
      var u := ReadInt(link, 2, if expected then sent[i] else 0);
      if u.Err? {
        return Err(u.error);
      }
      FlatSnoc<Unit>(UnitWire, units, u.value);
      AfterAgain(stream, Flat(UnitWire, units), UnitWire(u.value), here, link.incoming);
      units := units + [u.value];
    }
    assert expected ==> units == sent;
    r := Ok(units);
  }

  /** The four fields of a file after its path. */
  method ReadMetadata(link: Link, ghost sent: Metadata) returns (r: Result<Metadata>)
    modifies link`incoming
    ensures r.Ok? ==> After(old(link.incoming), MetadataWire(r.value), link.incoming)
    ensures MetadataWire(sent) <= old(link.incoming) ==> r == Ok(sent)
    ensures r.Err? ==> r.error in {UnexpectedEof, InvalidData}
  {
    Widths();
    ghost var s0 := link.incoming;
    ghost var expected := MetadataWire(sent) <= s0;
    ghost var w3 := [ClassToWire(sent.kind)];
    ghost var w2 := BE(sent.attributes, 4) + w3;
    ghost var w1 := BE(sent.lastWriteTime, 8) + w2;
    var size := ReadInt(link, 8, sent.size);
    if size.Err? {
      return Err(size.error);
    }
    ghost var s1 := link.incoming;
    if expected {
      PrefixAfter(s0, BE(sent.size, 8), w1, s1);
    }
    var time := ReadInt(link, 8, sent.lastWriteTime);
    if time.Err? {
      return Err(time.error);
    }
    ghost var s2 := link.incoming;
    if expected {
      PrefixAfter(s1, BE(sent.lastWriteTime, 8), w2, s2);
    }
    var attributes := ReadInt(link, 4, sent.attributes);
    if attributes.Err? {
      return Err(attributes.error);
    }
    ghost var s3 := link.incoming;
    if expected {
      PrefixAfter(s2, BE(sent.attributes, 4), w3, s3);
    }
    var b := link.ReadU8();
    if b.Err? {
      return Err(b.error);
    }
    var kind := ClassFromWire(b.value);
    if kind.None? {
      return Err(InvalidData);
    }
    ghost var u3 := [b.value];
    ghost var u2 := BE(attributes.value, 4) + u3;
    ghost var u1 := BE(time.value, 8) + u2;
    AfterAgain(s2, BE(attributes.value, 4), u3, s3, link.incoming);
    AfterAgain(s1, BE(time.value, 8), u2, s2, link.incoming);
    AfterAgain(s0, BE(size.value, 8), u1, s1, link.incoming);
    r := Ok(Metadata(size.value, time.value, attributes.value, kind.value));
  }

  /** `read_directory_entry` and `read_manifest_entry`. */
  method ReadNode(rules: Rules, link: Link, file: bool, ghost sent: Node) returns (r: Result<Node>)
    modifies link`incoming
    ensures r.Ok? ==>
      && r.value.File? == file && PathFits(rules, r.value.path)
      && After(old(link.incoming), NodeWire(r.value), link.incoming)
    ensures sent.File? == file && PathFits(rules, sent.path) && NodeWire(sent) <= old(link.incoming) ==>
      r == Ok(sent)
    ensures r.Err? ==> r.error in {UnexpectedEof, InvalidData}
  {
    ghost var s0 := link.incoming;
    ghost var expected := sent.File? == file && PathFits(rules, sent.path) && NodeWire(sent) <= s0;
    if expected && file {
      PrefixOfPrefix(PathWire(sent.path), NodeWire(sent), s0);
    }
    var path := ReadPath(rules, link, sent.path);
    if path.Err? {
      return Err(path.error);
    }
    if !file {
      return Ok(Directory(path.value));
    }
    ghost var s1 := link.incoming;
    ghost var meta := if expected then sent.metadata else Metadata(0, 0, 0, Tiny);
    if expected {
      PrefixAfter(s0, PathWire(sent.path), MetadataWire(meta), s1);
    }
    var metadata := ReadMetadata(link, meta);
    if metadata.Err? {
      return Err(metadata.error);
    }
    AfterAgain(s0, PathWire(path.value), MetadataWire(metadata.value), s1, link.incoming);
    r := Ok(File(path.value, metadata.value));
  }

  predicate AllOfKind(xs: seq<Node>, files: bool) {
    forall i | 0 <= i < |xs| :: xs[i].File? == files
  }

  /** What has been read of a list, and what it adds to the summary. */
  datatype Tally = Tally(nodes: seq<Node>, total: nat, hash: Word)

  /** `t` is right for the nodes it holds, and all of them were acceptable. */
  ghost predicate Tallied(rules: Rules, files: bool, hash: Word, t: Tally) {
    && AllFit(rules, t.nodes) && AllOfKind(t.nodes, files)
    && t.total == TotalSize(t.nodes) < U64 && t.hash == Fnv(hash, HashedNodes(t.nodes))
  }

  lemma OneMoreFits(rules: Rules, files: bool, xs: seq<Node>, x: Node)
    requires AllFit(rules, xs) && AllOfKind(xs, files) && x.File? == files && PathFits(rules, x.path)
    ensures AllFit(rules, xs + [x]) && AllOfKind(xs + [x], files)
  {
  }

  lemma OneMoreHashed(hash: Word, xs: seq<Node>, x: Node)
    ensures Fnv(hash, HashedNodes(xs + [x])) == Fnv(Fnv(hash, HashedNodes(xs)), Hashed(x))
  {
    FlatSnoc<Node>(Hashed, xs, x);
    FnvAppend(hash, HashedNodes(xs), Hashed(x));
  }

  lemma OneMoreTallied(rules: Rules, files: bool, hash: Word, t: Tally, x: Node)
    requires Tallied(rules, files, hash, t) && x.File? == files && PathFits(rules, x.path)
    requires t.total + Size(x) < U64
    ensures Tallied(rules, files, hash, Added(t, x))
  {
    OneMoreFits(rules, files, t.nodes, x);
    TotalSizeSnoc(t.nodes, x);
    OneMoreHashed(hash, t.nodes, x);
  }

  /** A list the receiver accepts, at the head of the stream. */
  ghost predicate Incoming(rules: Rules, files: bool, xs: seq<Node>, stream: seq<byte>) {
    AllFit(rules, xs) && AllOfKind(xs, files) && TotalSize(xs) < U64 && NodesWire(xs) <= stream
  }

  lemma NextNode(rules: Rules, files: bool, xs: seq<Node>, got: seq<Node>, stream: seq<byte>, here: seq<byte>)
    requires Incoming(rules, files, xs, stream) && got <= xs && |got| < |xs|
    requires After(stream, NodesWire(got), here)
    ensures var x := xs[|got|];
      && NodeWire(x) <= here && x.File? == files && PathFits(rules, x.path)
      && got + [x] <= xs && TotalSize(got) + Size(x) < U64
  {
    NextElement<Node>(NodeWire, xs, got, stream, here);
    NextTotal(xs, got);
  }

  lemma NextTotal(xs: seq<Node>, got: seq<Node>)
    requires got <= xs && |got| < |xs|
    ensures TotalSize(got) + Size(xs[|got|]) <= TotalSize(xs)
  {
    assert xs[..|got| + 1] == got + [xs[|got|]];
    TotalSizeGrows(xs, |got| + 1);
    TotalSizeSnoc(got, xs[|got|]);
  }

  lemma OneMoreRead(stream: seq<byte>, xs: seq<Node>, x: Node, here: seq<byte>, next: seq<byte>)
    requires After(stream, NodesWire(xs), here) && After(here, NodeWire(x), next)
    ensures After(stream, NodesWire(xs + [x]), next)
  {
    FlatSnoc<Node>(NodeWire, xs, x);
    AfterAgain(stream, NodesWire(xs), NodeWire(x), here, next);
  }

  /** The next node of a list of which `got` has been read. The ghost `expected` says that the stream holds
      the list `sent`. */
  method ReadNextNode(rules: Rules, link: Link, files: bool, ghost got: seq<Node>, ghost stream: seq<byte>,
                      ghost sent: seq<Node>, ghost expected: bool)
    returns (r: Result<Node>)
    requires After(stream, NodesWire(got), link.incoming)
    requires expected ==> Incoming(rules, files, sent, stream) && got <= sent && |got| < |sent|
    modifies link`incoming
    ensures r.Ok? ==>
      && r.value.File? == files && PathFits(rules, r.value.path)
      && After(stream, NodesWire(got + [r.value]), link.incoming)
    ensures expected ==> r.Ok? && got + [r.value] <= sent && TotalSize(got) + Size(r.value) < U64
    ensures r.Err? ==> r.error in {UnexpectedEof, InvalidData}
  {
    ghost var here := link.incoming;
    ghost var next := Directory([]);
    if expected {
      NextNode(rules, files, sent, got, stream, here);
      next := sent[|got|];
    }
    r := ReadNode(rules, link, files, next);
    if r.Ok? {
      OneMoreRead(stream, got, r.value, here, link.incoming);
    }
  }

  function Added(t: Tally, x: Node): Tally {
    Tally(t.nodes + [x], t.total + Size(x), Fnv(t.hash, Hashed(x)))
  }

  /** The body of either loop of `receive_manifest_entries`. */
  method ReadNext(rules: Rules, link: Link, files: bool, hash: Word, t: Tally, ghost stream: seq<byte>,
                  ghost sent: seq<Node>, ghost expected: bool)
    returns (r: Result<Tally>)
    requires Tallied(rules, files, hash, t) && After(stream, NodesWire(t.nodes), link.incoming)
    requires expected ==> Incoming(rules, files, sent, stream) && t.nodes <= sent && |t.nodes| < |sent|
    modifies link`incoming
    ensures r.Ok? ==>
      && Tallied(rules, files, hash, r.value) && |r.value.nodes| == |t.nodes| + 1
      && After(stream, NodesWire(r.value.nodes), link.incoming)
    ensures expected ==> r.Ok? && r.value.nodes <= sent
    ensures r.Err? ==> r.error in {UnexpectedEof, InvalidData, Overflow}
  {
    var x := ReadNextNode(rules, link, files, t.nodes, stream, sent, expected);
    if x.Err? {
      return Err(x.error);
    }
    if t.total + Size(x.value) >= U64 {
      return Err(Overflow);
    }
    var more := AddNode(rules, files, hash, t, x.value);
    r := Ok(more);
  }

  method AddNode(rules: Rules, files: bool, ghost hash: Word, t: Tally, x: Node) returns (more: Tally)
    requires Tallied(rules, files, hash, t) && x.File? == files && PathFits(rules, x.path)
    requires t.total + Size(x) < U64
    ensures Tallied(rules, files, hash, more) && more.nodes == t.nodes + [x]
  {
    OneMoreTallied(rules, files, hash, t, x);
    var h := HashNode(t.hash, x);
    more := Tally(t.nodes + [x], t.total + Size(x), h);
    assert more == Added(t, x);
  }

  /** Either loop of `receive_manifest_entries`. */
  method ReadNodes(rules: Rules, link: Link, count: nat, files: bool, hash: Word, ghost sent: seq<Node>)
    returns (r: Result<Tally>)
    modifies link`incoming
    ensures r.Ok? ==>
      && Tallied(rules, files, hash, r.value) && |r.value.nodes| == count
      && After(old(link.incoming), NodesWire(r.value.nodes), link.incoming)
    ensures |sent| == count && Incoming(rules, files, sent, old(link.incoming)) ==> r.Ok? && r.value.nodes == sent
    ensures r.Err? ==> r.error in {UnexpectedEof, InvalidData, Overflow}
  {
    ghost var stream := link.incoming;
    ghost var expected := |sent| == count && Incoming(rules, files, sent, stream);
    var t := Tally([], 0, hash);
    for i := 0 to count
      invariant |t.nodes| == i && Tallied(rules, files, hash, t)
      invariant After(stream, NodesWire(t.nodes), link.incoming)
      invariant expected ==> t.nodes <= sent
    {
      var more := ReadNext(rules, link, files, hash, t, stream, sent, expected);
      if more.Err? {
        return more;
      }
      t := more.value;
    }
    assert expected ==> t.nodes == sent;
    r := Ok(t);
  }

  method ReadSummary(link: Link, ghost sent: Summary) returns (r: Result<Summary>)
    modifies link`incoming
    ensures r.Ok? ==> After(old(link.incoming), SummaryWire(r.value), link.incoming)
    ensures r.Ok? ==> r.value.entries < U64 && r.value.directories < U64
    ensures (&& sent.entries < U64 && sent.directories < U64 && sent.totalFileBytes < U64
             && SummaryWire(sent) <= old(link.incoming)) ==> r == Ok(sent)
    ensures r.Err? ==> r.error == UnexpectedEof
  {
    Widths();
    ghost var s0 := link.incoming;
    ghost var expected :=
      sent.entries < U64 && sent.directories < U64 && sent.totalFileBytes < U64 && SummaryWire(sent) <= s0;
    ghost var w3 := BE(sent.fingerprint, 8);
    ghost var w2 := BE(sent.totalFileBytes, 8) + w3;
    ghost var w1 := BE(sent.directories, 8) + w2;
    var entries := ReadInt(link, 8, sent.entries);
    if entries.Err? {
      return Err(entries.error);
    }
    ghost var s1 := link.incoming;
    if expected {
      PrefixAfter(s0, BE(sent.entries, 8), w1, s1);
    }
    var directories := ReadInt(link, 8, sent.directories);
    if directories.Err? {
      return Err(directories.error);
    }
    ghost var s2 := link.incoming;
    if expected {
      PrefixAfter(s1, BE(sent.directories, 8), w2, s2);
    }
    var total := ReadInt(link, 8, sent.totalFileBytes);
    if total.Err? {
      return Err(total.error);
    }
    ghost var s3 := link.incoming;
    if expected {
      PrefixAfter(s2, BE(sent.totalFileBytes, 8), w3, s3);
    }
    var fingerprint := ReadInt(link, 8, sent.fingerprint);
    if fingerprint.Err? {
      return Err(fingerprint.error);
    }
    ghost var u3 := BE(fingerprint.value, 8);
    ghost var u2 := BE(total.value, 8) + u3;
    ghost var u1 := BE(directories.value, 8) + u2;
    AfterAgain(s2, BE(total.value, 8), u3, s3, link.incoming);
    AfterAgain(s1, BE(directories.value, 8), u2, s2, link.incoming);
    AfterAgain(s0, BE(entries.value, 8), u1, s1, link.incoming);
    r := Ok(Summary(entries.value, directories.value, total.value, fingerprint.value));
  }

  /** The two loops of `receive_manifest_entries`: the directories, then the files, with the summary the
      receiver computes for itself. */
  method ReadTree(rules: Rules, link: Link, claimed: Summary, ghost sent: Tree) returns (r: Result<(Tree, Summary)>)
    requires claimed.entries < U64 && claimed.directories < U64
    modifies link`incoming
    ensures r.Ok? ==>
      && AllFit(rules, r.value.0.directories) && AllFit(rules, r.value.0.files)
      && Countable(r.value.0) && r.value.1 == SummaryOf(r.value.0)
      && After(old(link.incoming), NodesOf(r.value.0), link.incoming)
    ensures (&& Countable(sent) && AllFit(rules, sent.directories) && AllFit(rules, sent.files)
             && claimed.directories == |sent.directories| && claimed.entries == |sent.files|
             && NodesOf(sent) <= old(link.incoming)) ==> r.Ok? && r.value.0 == sent
    ensures r.Err? ==> r.error in {UnexpectedEof, InvalidData, Overflow}
  {
    ghost var s0 := link.incoming;
    ghost var expected := Countable(sent) && AllFit(rules, sent.directories) && AllFit(rules, sent.files)
             && claimed.directories == |sent.directories| && claimed.entries == |sent.files|
             && NodesOf(sent) <= s0;
    DirectoriesHaveNoSize(sent.directories);
    if expected {
      PrefixOfPrefix(NodesWire(sent.directories), NodesOf(sent), s0);
    }
    var ds := ReadNodes(rules, link, claimed.directories, false, FNV_OFFSET_BASIS, sent.directories);
    if ds.Err? {
      return Err(ds.error);
    }
    ghost var s1 := link.incoming;
    if expected {
      PrefixAfter(s0, NodesWire(sent.directories), NodesWire(sent.files), s1);
    }
    var fs := ReadNodes(rules, link, claimed.entries, true, ds.value.hash, sent.files);
    if fs.Err? {
      return Err(fs.error);
    }
    AfterAgain(s0, NodesWire(ds.value.nodes), NodesWire(fs.value.nodes), s1, link.incoming);
    FnvAppend(FNV_OFFSET_BASIS, HashedNodes(ds.value.nodes), HashedNodes(fs.value.nodes));
    var t := Tree(ds.value.nodes, fs.value.nodes);
    r := Ok((t, Summary(|fs.value.nodes|, |ds.value.nodes|, fs.value.total, fs.value.hash)));
  }

  /** `receive_manifest_entries`: it returns exactly the trees that can travel, from exactly the bytes that
      encode them, with the summary of the tree and the number of bytes consumed. */
  method ReceiveManifest(rules: Rules, link: Link, ghost sent: Tree) returns (r: Result<(Tree, Summary, nat)>)
    modifies link`incoming
    ensures r.Ok? ==>
      && Sendable(rules, r.value.0) && r.value.1 == SummaryOf(r.value.0)
      && After(old(link.incoming), ManifestWire(r.value.0), link.incoming)
      && r.value.2 == |ManifestWire(r.value.0)|
    ensures Sendable(rules, sent) && ManifestWire(sent) <= old(link.incoming) ==> r.Ok? && r.value.0 == sent
  {
    Widths();
    var begun := |link.incoming|;
    ghost var s0 := link.incoming;
    ghost var expected := Sendable(rules, sent) && ManifestWire(sent) <= s0;
    if expected {
      assert ManifestWire(sent)[0] == MESSAGE_MANIFEST == s0[0];
    }
    var message := link.ReadU8();
    if message.Err? {
      return Err(message.error);
    }
    if message.value != MESSAGE_MANIFEST {
      return Err(InvalidData);
    }
    ghost var s1 := link.incoming;
    assert After(s0, [MESSAGE_MANIFEST], s1);
    if expected {
      PrefixAfter(s0, [MESSAGE_MANIFEST], SummaryWire(SummaryOf(sent)) + NodesOf(sent), s1);
    }
    var claimed := ReadSummary(link, SummaryOf(sent));
    if claimed.Err? {
      return Err(claimed.error);
    }
    ghost var s2 := link.incoming;
    if expected {
      PrefixAfter(s1, SummaryWire(SummaryOf(sent)), NodesOf(sent), s2);
    }
    var actual := ReadTree(rules, link, claimed.value, sent);
    if actual.Err? {
      return Err(actual.error);
    }
    var t := actual.value.0;
    if !rules.tree(t) {
      return Err(InvalidData);
    }
    if actual.value.1 != claimed.value {
      return Err(InvalidData);
    }
    AfterAgain(s1, SummaryWire(claimed.value), NodesOf(t), s2, link.incoming);
    AfterAgain(s0, [MESSAGE_MANIFEST], SummaryWire(claimed.value) + NodesOf(t), s1, link.incoming);
    r := Ok((t, actual.value.1, begun - |link.incoming|));
  }

  // ---------------------------------------------------------------- manifests that break off

  lemma SameInt(v: nat, w: nat, k: nat, s: seq<byte>)
    requires v < Pow256(k) && w < Pow256(k) && BE(v, k) <= s && BE(w, k) <= s
    ensures v == w
  {
    assert s[..k] == BE(v, k) && s[..k] == BE(w, k);
    FromBEOfBE(v, k);
    FromBEOfBE(w, k);
  }

  lemma {:induction false} UnitsLength(p: seq<Unit>)
    ensures |Flat(UnitWire, p)| == 2 * |p|
  {
    if p != [] {
      UnitsLength(p[..|p| - 1]);
    }
  }

  lemma {:induction false} SameUnits(p: seq<Unit>, q: seq<Unit>)
    requires |p| == |q| && Flat(UnitWire, p) == Flat(UnitWire, q)
    ensures p == q
  {
    if p != [] {
      var n := |p| - 1;
      var a, b := Flat(UnitWire, p[..n]), Flat(UnitWire, q[..n]);
      UnitsLength(p[..n]);
      UnitsLength(q[..n]);
      SplitEqual(a, UnitWire(p[n]), b, UnitWire(q[n]));
      SameUnits(p[..n], q[..n]);
      Widths();
      SameInt(p[n], q[n], 2, UnitWire(p[n]));
      assert p == p[..n] + [p[n]] && q == q[..n] + [q[n]];
    }
  }

  lemma SplitEqual(a: seq<byte>, x: seq<byte>, b: seq<byte>, y: seq<byte>)
    requires a + x == b + y && |a| == |b|
    ensures a == b && x == y
  {
    assert (a + x)[..|a|] == a && (b + y)[..|b|] == b;
    assert (a + x)[|a|..] == x && (b + y)[|b|..] == y;
  }

  /** Prefixes of one length of one sequence are equal. */
  lemma SamePrefix(a: seq<byte>, b: seq<byte>, s: seq<byte>)
    requires a <= s && b <= s && |a| == |b|
    ensures a == b
  {
  }

  lemma SamePath(p: seq<Unit>, q: seq<Unit>, s: seq<byte>)
    requires |p| < U32 && |q| < U32 && PathWire(p) <= s && PathWire(q) <= s
    ensures p == q
  {
    Widths();
    PrefixOfPrefix(BE(|p|, 4), PathWire(p), s);
    PrefixOfPrefix(BE(|q|, 4), PathWire(q), s);
    SameInt(|p|, |q|, 4, s);
    UnitsLength(p);
    UnitsLength(q);
    SamePrefix(PathWire(p), PathWire(q), s);
    SplitEqual(BE(|p|, 4), Flat(UnitWire, p), BE(|q|, 4), Flat(UnitWire, q));
    SameUnits(p, q);
  }

  lemma SameMetadata(m: Metadata, n: Metadata)
    requires MetadataWire(m) == MetadataWire(n)
    ensures m == n
  {
    Widths();
    var m2, n2 := BE(m.attributes, 4) + [ClassToWire(m.kind)], BE(n.attributes, 4) + [ClassToWire(n.kind)];
    var m1, n1 := BE(m.lastWriteTime, 8) + m2, BE(n.lastWriteTime, 8) + n2;
    SplitEqual(BE(m.size, 8), m1, BE(n.size, 8), n1);
    SplitEqual(BE(m.lastWriteTime, 8), m2, BE(n.lastWriteTime, 8), n2);
    SplitEqual(BE(m.attributes, 4), [ClassToWire(m.kind)], BE(n.attributes, 4), [ClassToWire(n.kind)]);
    SameInt(m.size, n.size, 8, BE(m.size, 8));
    SameInt(m.lastWriteTime, n.lastWriteTime, 8, BE(m.lastWriteTime, 8));
    SameInt(m.attributes, n.attributes, 4, BE(m.attributes, 4));
  }

  /** No entry's wire begins another's of the same kind. */
  lemma SameNode(rules: Rules, x: Node, y: Node, s: seq<byte>)
    requires x.File? == y.File? && PathFits(rules, x.path) && PathFits(rules, y.path)
    requires NodeWire(x) <= s && NodeWire(y) <= s
    ensures x == y
  {
    PrefixOfPrefix(PathWire(x.path), NodeWire(x), s);
    PrefixOfPrefix(PathWire(y.path), NodeWire(y), s);
    SamePath(x.path, y.path, s);
    if x.File? {
      SamePrefix(NodeWire(x), NodeWire(y), s);
      SplitEqual(PathWire(x.path), MetadataWire(x.metadata), PathWire(y.path), MetadataWire(y.metadata));
      SameMetadata(x.metadata, y.metadata);
    }
  }

  /** Where two lists are both read, they agree. */
  lemma {:induction false} NodesAgree(rules: Rules, xs: seq<Node>, ys: seq<Node>, i: nat, s: seq<byte>)
    requires AllFit(rules, xs) && AllFit(rules, ys) && i <= |xs| && i <= |ys|
    requires forall j | 0 <= j < i :: xs[j].File? == ys[j].File?
    requires NodesWire(xs) <= s && NodesWire(ys) <= s
    ensures xs[..i] == ys[..i]
  {
    if i > 0 {
      var n := i - 1;
      NodesAgree(rules, xs, ys, n, s);
      FlatPrefix<Node>(NodeWire, xs, n);
      PrefixOfPrefix(NodesWire(xs[..n]), NodesWire(xs), s);
      var here := s[|NodesWire(xs[..n])|..];
      assert After(s, NodesWire(xs[..n]), here);
      NextElement<Node>(NodeWire, xs, xs[..n], s, here);
      NextElement<Node>(NodeWire, ys, ys[..n], s, here);
      SameNode(rules, xs[n], ys[n], here);
      assert xs[..i] == xs[..n] + [xs[n]] && ys[..i] == ys[..n] + [ys[n]];
    }
  }

  /** A longer list is not read from the wire of a shorter one. */
  lemma TooFewNodes(rules: Rules, xs: seq<Node>, ys: seq<Node>)
    requires AllFit(rules, xs) && AllFit(rules, ys) && |ys| < |xs|
    requires forall j | 0 <= j < |ys| :: xs[j].File? == ys[j].File?
    ensures !(NodesWire(xs) <= NodesWire(ys))
  {
    if NodesWire(xs) <= NodesWire(ys) {
      var n := |ys|;
      NodesAgree(rules, xs, ys, n, NodesWire(ys));
      assert ys[..n] == ys && xs[..n + 1] == ys + [xs[n]];
      FlatSnoc<Node>(NodeWire, ys, xs[n]);
      FlatPrefix<Node>(NodeWire, xs, n + 1);
    }
  }

  lemma SameSummary(a: Summary, b: Summary)
    requires a.entries < U64 && a.directories < U64 && a.totalFileBytes < U64
    requires b.entries < U64 && b.directories < U64 && b.totalFileBytes < U64
    requires SummaryWire(a) == SummaryWire(b)
    ensures a == b
  {
    Widths();
    var a2, b2 := BE(a.totalFileBytes, 8) + BE(a.fingerprint, 8), BE(b.totalFileBytes, 8) + BE(b.fingerprint, 8);
    var a1, b1 := BE(a.directories, 8) + a2, BE(b.directories, 8) + b2;
    SplitEqual(BE(a.entries, 8), a1, BE(b.entries, 8), b1);
    SplitEqual(BE(a.directories, 8), a2, BE(b.directories, 8), b2);
    SplitEqual(BE(a.totalFileBytes, 8), BE(a.fingerprint, 8), BE(b.totalFileBytes, 8), BE(b.fingerprint, 8));
    SameInt(a.entries, b.entries, 8, BE(a.entries, 8));
    SameInt(a.directories, b.directories, 8, BE(a.directories, 8));
    SameInt(a.totalFileBytes, b.totalFileBytes, 8, BE(a.totalFileBytes, 8));
    SameInt(a.fingerprint, b.fingerprint, 8, BE(a.fingerprint, 8));
  }

  /** Bytes that begin with a whole manifest announce its summary and hold its nodes. */
  lemma ManifestShows(u: Tree, summary: seq<byte>, nodes: seq<byte>)
    requires |summary| == 32 && ManifestWire(u) <= [MESSAGE_MANIFEST] + (summary + nodes)
    ensures SummaryWire(SummaryOf(u)) == summary && NodesWire(AllNodes(u)) <= nodes
  {
    var stream := [MESSAGE_MANIFEST] + (summary + nodes);
    var w := SummaryWire(SummaryOf(u));
    assert After(stream, [MESSAGE_MANIFEST], summary + nodes);
    PrefixAfter(stream, [MESSAGE_MANIFEST], w + NodesOf(u), summary + nodes);
    PrefixOfPrefix(w, w + NodesOf(u), summary + nodes);
    SamePrefix(w, summary, summary + nodes);
    PrefixAfter(summary + nodes, w, NodesOf(u), nodes);
    FlatAppend<Node>(NodeWire, u.directories, u.files);
  }

  /** A manifest that breaks off begins no manifest: whatever tree could be read from it has as many nodes as
      were announced, and the bytes of the last ones are missing. */
  lemma BrokenOffIsNoManifest(rules: Rules, t: Tree, k: nat, u: Tree)
    requires Countable(t) && k < |AllNodes(t)| && AllFit(rules, AllNodes(t)[..k]) && Sendable(rules, u)
    ensures !(ManifestWire(u) <= BrokenOff(t, k))
  {
    if ManifestWire(u) <= BrokenOff(t, k) {
      var ts, us := AllNodes(t)[..k], AllNodes(u);
      ManifestShows(u, SummaryWire(SummaryOf(t)), NodesWire(ts));
      SameSummary(SummaryOf(u), SummaryOf(t));
      assert AllFit(rules, us);
      TooFewNodes(rules, us, ts);
    }
  }

  /** A manifest that is sent arrives: the same tree, the same summary and the same byte count on both
      sides. What the sender refuses half-way is not taken for a manifest either. */
  method Exchange(rules: Rules, t: Tree) returns (sent: Result<nat>, received: Result<(Tree, Summary, nat)>)
    ensures sent.Ok? <==> Sendable(rules, t)
    ensures sent.Ok? ==> received == Ok((t, SummaryOf(t), sent.value))
    ensures sent.Err? ==> received.Err?
  {
    var sender := new Link([]);
    ghost var k;
    sent, k := SendManifest(rules, sender, t);
    var receiver := new Link(sender.outgoing);
    ghost var stream := receiver.incoming;
    received := ReceiveManifest(rules, receiver, t);
    if received.Ok? {
      ghost var u := received.value.0;
      AfterIsPrefix(stream, ManifestWire(u), receiver.incoming);
      if sent.Err? && rules.tree(t) && Countable(t) {
        BrokenOffIsNoManifest(rules, t, k, u);
      }
    }
  }
}
