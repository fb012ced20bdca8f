/** The binary file of the vector-attribute bipartite graph: save_bipartite_graph,
    load_bipartite_graph and the checksum both of them use. Fixed-width fields are copied
    from memory, so they are modelled as little-endian byte strings of their type's width. */
module BipartiteFile {
  import opened Common
  import opened Bipartite

  newtype byte = x: int | 0 <= x < 256

  /** sizeof(IdxType), sizeof(AtrType) and sizeof(LabelType). */
  const IDX_BYTES: nat := 4
  const ATR_BYTES: nat := 4
  const LABEL_BYTES: nat := 2

  /** The file header "BIPGRPH1". */
  const MAGIC: seq<byte> := [66, 73, 80, 71, 82, 80, 72, 49]

  function Pow256(k: nat): (p: nat)
    ensures p >= 1
  {
    if k == 0 then 1 else 256 * Pow256(k - 1)
  }

  /** x written as a k-byte unsigned integer, least significant byte first; the high part of
      an x that does not fit is lost, as in a narrowing conversion. */
  function LE(x: nat, k: nat): (bs: seq<byte>)
    ensures |bs| == k
  {
    if k == 0 then [] else [(x % 256) as byte] + LE(x / 256, k - 1)
  }

  /** The k-byte unsigned integer at the front of bs, least significant byte first. */
  function ReadLE(bs: seq<byte>, k: nat): (x: nat)
    requires k <= |bs|
    ensures x < Pow256(k)
  {
    if k == 0 then 0 else bs[0] as nat + 256 * ReadLE(bs[1..], k - 1)
  }

  // ---------------------------------------------------------------- checksum

  /** One step of compute_checksum: sum ^= node << (sum % 32), in 32-bit arithmetic. */
  function ChecksumStep(sum: bv32, node: nat): bv32
  {
    sum ^ (((node % 0x1_0000_0000) as bv32) << (sum % 32))
  }

  /** The checksum of a sequence of node ids, folded in order. */
  function ChecksumOf(nodes: seq<nat>): bv32
  {
    if nodes == [] then 0 else ChecksumStep(ChecksumOf(nodes[..|nodes| - 1]), nodes[|nodes| - 1])
  }

  /** The checksum of an adjacency: all lists, one after another. */
  function Checksum(graph: seq<seq<nat>>): bv32
  {
    ChecksumOf(Flatten(graph))
  }

  lemma ChecksumSnoc(nodes: seq<nat>, x: nat)
    ensures ChecksumOf(nodes + [x]) == ChecksumStep(ChecksumOf(nodes), x)
  {
    assert (nodes + [x])[..|nodes|] == nodes;
  }

  /** The inner loop of compute_checksum over one neighbour list, continuing from the checksum
      of the lists before it. */
  method ChecksumContinue(sum0: bv32, ghost before: seq<nat>, neighbors: seq<nat>) returns (sum: bv32)
    requires sum0 == ChecksumOf(before)
    ensures sum == ChecksumOf(before + neighbors)
  {
    sum := sum0;
    assert before + neighbors[..0] == before;
    for j := 0 to |neighbors|
      invariant sum == ChecksumOf(before + neighbors[..j])
    {
      ChecksumSnoc(before + neighbors[..j], neighbors[j]);
      assert before + neighbors[..j + 1] == (before + neighbors[..j]) + [neighbors[j]];
      sum := ChecksumStep(sum, neighbors[j]);
    }
    assert neighbors[..|neighbors|] == neighbors;
  }

  /** compute_checksum: the nested loop over the adjacency lists. */
  method ComputeChecksum(graph: seq<seq<nat>>) returns (sum: bv32)
    ensures sum == Checksum(graph)
  {
    sum := 0;
    for i := 0 to |graph|
      invariant sum == ChecksumOf(Flatten(graph[..i]))
    {
      sum := ChecksumContinue(sum, Flatten(graph[..i]), graph[i]);
      assert graph[..i + 1][..i] == graph[..i];
    }
    assert graph[..|graph|] == graph;
  }

  // ---------------------------------------------------------------- encoding

  /** What save_bipartite_graph writes for its (label, id) pairs, in iteration order. */
  function EncodeEntries(entries: seq<(nat, nat)>): (bs: seq<byte>)
    ensures |bs| == (LABEL_BYTES + ATR_BYTES) * |entries|
  {
    if entries == [] then []
    else LE(entries[0].0, LABEL_BYTES) + LE(entries[0].1, ATR_BYTES) + EncodeEntries(entries[1..])
  }

  /** A neighbour list's ids, each as an IdxType. */
  function EncodeIds(ids: seq<nat>): (bs: seq<byte>)
    ensures |bs| == IDX_BYTES * |ids|
  {
    if ids == [] then [] else LE(ids[0], IDX_BYTES) + EncodeIds(ids[1..])
  }

  /** Each neighbour list as a 32-bit count followed by its ids. */
  function EncodeNodes(graph: seq<seq<nat>>): seq<byte>
  {
    if graph == [] then [] else LE(|graph[0]|, 4) + EncodeIds(graph[0]) + EncodeNodes(graph[1..])
  }

  /** The whole file: header, num_points, num_attributes, the attribute map, the adjacency and
      the checksum of the adjacency. */
  function Encode(numPoints: nat, numAttributes: nat, entries: seq<(nat, nat)>, graph: seq<seq<nat>>): (r: seq<byte>)
    ensures |MAGIC| + 4 <= |r| && r[..|MAGIC|] == MAGIC && r[|r| - 4..] == LE(Checksum(graph) as nat, 4)
  {
    var body := EncodeBody(numPoints, numAttributes, entries, graph);
    assert body[..|MAGIC|] == MAGIC;
    body + LE(Checksum(graph) as nat, 4)
  }

  /** Everything before the checksum. */
  function EncodeBody(numPoints: nat, numAttributes: nat, entries: seq<(nat, nat)>, graph: seq<seq<nat>>): seq<byte>
  {
    MAGIC + LE(numPoints, IDX_BYTES) + LE(numAttributes, ATR_BYTES) + LE(|entries|, 8)
      + EncodeEntries(entries) + LE(|graph|, 8) + EncodeNodes(graph)
  }

  lemma {:induction false} EncodeEntriesAppend(entries: seq<(nat, nat)>, e: (nat, nat))
    ensures EncodeEntries(entries + [e]) == EncodeEntries(entries) + LE(e.0, LABEL_BYTES) + LE(e.1, ATR_BYTES)
  {
    if entries != [] {
      assert (entries + [e])[1..] == entries[1..] + [e];
      EncodeEntriesAppend(entries[1..], e);
    }
  }

  lemma {:induction false} EncodeIdsAppend(ids: seq<nat>, x: nat)
    ensures EncodeIds(ids + [x]) == EncodeIds(ids) + LE(x, IDX_BYTES)
  {
    if ids != [] {
      assert (ids + [x])[1..] == ids[1..] + [x];
      EncodeIdsAppend(ids[1..], x);
    }
  }

  lemma {:induction false} EncodeNodesAppend(graph: seq<seq<nat>>, ids: seq<nat>)
    ensures EncodeNodes(graph + [ids]) == EncodeNodes(graph) + LE(|ids|, 4) + EncodeIds(ids)
  {
    if graph != [] {
      assert (graph + [ids])[1..] == graph[1..] + [ids];
      EncodeNodesAppend(graph[1..], ids);
    }
  }

  /** The loop of save_bipartite_graph over the attribute map. */
  method WriteEntries(entries: seq<(nat, nat)>) returns (out: seq<byte>)
    ensures out == EncodeEntries(entries)
  {
    out := [];
    for i := 0 to |entries|
      invariant out == EncodeEntries(entries[..i])
    {
      EncodeEntriesAppend(entries[..i], entries[i]);
      assert entries[..i + 1] == entries[..i] + [entries[i]];
      out := out + LE(entries[i].0, LABEL_BYTES) + LE(entries[i].1, ATR_BYTES);
    }
    assert entries[..|entries|] == entries;
  }

  /** One neighbour list: its count, then the block of ids. */
  method WriteNode(neighbors: seq<nat>) returns (out: seq<byte>)
    ensures out == LE(|neighbors|, 4) + EncodeIds(neighbors)
  {
    var start := LE(|neighbors|, 4);
    out := start;
    for j := 0 to |neighbors|
      invariant out == start + EncodeIds(neighbors[..j])
    {
      EncodeIdsAppend(neighbors[..j], neighbors[j]);
      assert neighbors[..j + 1] == neighbors[..j] + [neighbors[j]];
      out := out + LE(neighbors[j], IDX_BYTES);
    }
    assert neighbors[..|neighbors|] == neighbors;
  }

  /** The loop of save_bipartite_graph over the adjacency lists. */
  method WriteNodes(graph: seq<seq<nat>>) returns (out: seq<byte>)
    ensures out == EncodeNodes(graph)
  {
    out := [];
    for i := 0 to |graph|
      invariant out == EncodeNodes(graph[..i])
    {
      var node := WriteNode(graph[i]);
      EncodeNodesAppend(graph[..i], graph[i]);
      assert graph[..i + 1] == graph[..i] + [graph[i]];
      out := out + node;
    }
    assert graph[..|graph|] == graph;
  }

  /** save_bipartite_graph, writing to a byte string; entries is the order in which the
      attribute map is iterated. */
  method Save(numPoints: nat, numAttributes: nat, entries: seq<(nat, nat)>, graph: seq<seq<nat>>)
    returns (out: seq<byte>)
    ensures out == Encode(numPoints, numAttributes, entries, graph)
  {
    var mapBytes := WriteEntries(entries);
    var graphBytes := WriteNodes(graph);
    var checksum := ComputeChecksum(graph);
    out := MAGIC + LE(numPoints, IDX_BYTES) + LE(numAttributes, ATR_BYTES) + LE(|entries|, 8)
      + mapBytes + LE(|graph|, 8) + graphBytes + LE(checksum as nat, 4);
  }

  // ---------------------------------------------------------------- decoding

  /** What load_bipartite_graph restores. */
  datatype Image = Image(numPoints: nat, numAttributes: nat, attrToId: map<nat, nat>,
                         idToAttr: map<nat, nat>, graph: seq<seq<nat>>)

  /** Why a load fails. The checksum is compared only after every field has been read into
      the object, so a mismatch carries the image that was read. */
  datatype LoadError = InvalidFormat | Truncated | ChecksumMismatch(loaded: Image)

  /** The attribute maps after storing the pairs one by one, a later pair overwriting. */
  function ApplyEntries(attrToId: map<nat, nat>, idToAttr: map<nat, nat>, entries: seq<(nat, nat)>)
    : (map<nat, nat>, map<nat, nat>)
    decreases |entries|
  {
    if entries == [] then (attrToId, idToAttr)
    else ApplyEntries(attrToId[entries[0].0 := entries[0].1], idToAttr[entries[0].1 := entries[0].0], entries[1..])
  }

  /** Reading count (label, id) pairs from the front of the input into the maps; the rest of
      the input comes back with them. */
  function ReadEntries(input: seq<byte>, count: nat, attrToId: map<nat, nat>, idToAttr: map<nat, nat>)
    : (r: Result<(map<nat, nat>, map<nat, nat>, seq<byte>), LoadError>)
    ensures r.Err? ==> r.error == Truncated
    decreases count
  {
    if count == 0 then Ok((attrToId, idToAttr, input))
    else if |input| < LABEL_BYTES + ATR_BYTES then Err(Truncated)
    else
      var lab := ReadLE(input, LABEL_BYTES);
      var afterLabel := input[LABEL_BYTES..];
      var id := ReadLE(afterLabel, ATR_BYTES);
      ReadEntries(afterLabel[ATR_BYTES..], count - 1, attrToId[lab := id], idToAttr[id := lab])
  }

  /** Reading count ids from the front of the input onto ids. */
  function ReadIds(input: seq<byte>, count: nat, ids: seq<nat>): (r: Result<(seq<nat>, seq<byte>), LoadError>)
    ensures r.Err? ==> r.error == Truncated
    decreases count
  {
    if count == 0 then Ok((ids, input))
    else if |input| < IDX_BYTES then Err(Truncated)
    else ReadIds(input[IDX_BYTES..], count - 1, ids + [ReadLE(input, IDX_BYTES)])
  }

  /** Reading one neighbour list: a 32-bit count, then that many ids. */
  function ReadNode(input: seq<byte>): (r: Result<(seq<nat>, seq<byte>), LoadError>)
    ensures r.Err? ==> r.error == Truncated
  {
    if |input| < 4 then Err(Truncated) else ReadIds(input[4..], ReadLE(input, 4), [])
  }

  /** Reading count neighbour lists onto graph. */
  function ReadNodes(input: seq<byte>, count: nat, graph: seq<seq<nat>>)
    : (r: Result<(seq<seq<nat>>, seq<byte>), LoadError>)
    ensures r.Err? ==> r.error == Truncated
    decreases count
  {
    if count == 0 then Ok((graph, input))
    else
      match ReadNode(input)
      case Err(e) => Err(e)
      case Ok((ids, rest)) => ReadNodes(rest, count - 1, graph + [ids])
  }

  /** What load_bipartite_graph makes of a file: the header must read "BIPGRPH1" and the
      stored checksum must equal the checksum of the adjacency read back. A wrong header is
      the only invalid format; a file that ends early is truncated. */
  function Decode(bs: seq<byte>): (r: Result<Image, LoadError>)
    ensures r == Err(InvalidFormat) <==> |bs| < |MAGIC| || bs[..|MAGIC|] != MAGIC
  {
    if |bs| < |MAGIC| || bs[..|MAGIC|] != MAGIC then Err(InvalidFormat)
    else if |bs| < |MAGIC| + IDX_BYTES + ATR_BYTES + 8 then Err(Truncated)
    else
      var afterMagic := bs[|MAGIC|..];
      var afterPoints := afterMagic[IDX_BYTES..];
      var afterAttributes := afterPoints[ATR_BYTES..];
      DecodeGraph(ReadLE(afterMagic, IDX_BYTES), ReadLE(afterPoints, ATR_BYTES),
                  ReadEntries(afterAttributes[8..], ReadLE(afterAttributes, 8), map[], map[]))
  }

  /** The rest of Decode once the attribute map has been read. */
  function DecodeGraph(numPoints: nat, numAttributes: nat,
                       maps: Result<(map<nat, nat>, map<nat, nat>, seq<byte>), LoadError>)
    : (r: Result<Image, LoadError>)
    requires maps.Err? ==> maps.error == Truncated
    ensures r != Err(InvalidFormat)
  {
    match maps
    case Err(e) => Err(e)
    case Ok((attrToId, idToAttr, rest)) =>
      if |rest| < 8 then Err(Truncated)
      else DecodeChecksum(numPoints, numAttributes, attrToId, idToAttr, ReadNodes(rest[8..], ReadLE(rest, 8), []))
  }

  /** The rest of Decode once the adjacency has been read. */
  function DecodeChecksum(numPoints: nat, numAttributes: nat, attrToId: map<nat, nat>, idToAttr: map<nat, nat>,
                          nodes: Result<(seq<seq<nat>>, seq<byte>), LoadError>): (r: Result<Image, LoadError>)
    requires nodes.Err? ==> nodes.error == Truncated
    ensures r != Err(InvalidFormat)
  {
    match nodes
    case Err(e) => Err(e)
    case Ok((graph, rest)) =>
      if |rest| < 4 then Err(Truncated)
      else
        var image := Image(numPoints, numAttributes, attrToId, idToAttr, graph);
        if ReadLE(rest, 4) != Checksum(graph) as nat then Err(ChecksumMismatch(image)) else Ok(image)
  }

  // ---------------------------------------------------------------- round trip

  /** Every pair fits the widths of LabelType and AtrType. */
  ghost predicate EntriesFit(entries: seq<(nat, nat)>)
  {
    forall k :: 0 <= k < |entries| ==> entries[k].0 < Pow256(LABEL_BYTES) && entries[k].1 < Pow256(ATR_BYTES)
  }

  /** Every id fits IdxType. */
  ghost predicate IdsFit(ids: seq<nat>)
  {
    forall k :: 0 <= k < |ids| ==> ids[k] < Pow256(IDX_BYTES)
  }

  /** Every list's length fits its 32-bit count and every id fits IdxType. */
  ghost predicate NodesFit(graph: seq<seq<nat>>)
  {
    forall i :: 0 <= i < |graph| ==> |graph[i]| < Pow256(4) && IdsFit(graph[i])
  }

  /** A k-byte field written with x reads back as x, and reading it leaves what follows. */
  lemma {:induction false} ReadLEOf(x: nat, k: nat, tail: seq<byte>)
    requires x < Pow256(k)
    ensures k <= |LE(x, k) + tail| && ReadLE(LE(x, k) + tail, k) == x && (LE(x, k) + tail)[k..] == tail
  {
    var s := LE(x, k) + tail;
    if k == 0 {
      assert s == tail;
    } else {
      assert s[1..] == LE(x / 256, k - 1) + tail;
      ReadLEOf(x / 256, k - 1, tail);
      assert s[k..] == s[1..][k - 1..];
    }
  }

  lemma {:induction false} ReadEntriesOf(entries: seq<(nat, nat)>, tail: seq<byte>,
                                         attrToId: map<nat, nat>, idToAttr: map<nat, nat>)
    requires EntriesFit(entries)
    ensures ReadEntries(EncodeEntries(entries) + tail, |entries|, attrToId, idToAttr) ==
            Ok((ApplyEntries(attrToId, idToAttr, entries).0, ApplyEntries(attrToId, idToAttr, entries).1, tail))
    decreases |entries|
  {
    if entries == [] {
      assert EncodeEntries(entries) + tail == tail;
    } else {
      var e := entries[0];
      var rest := EncodeEntries(entries[1..]) + tail;
      var afterLabel := LE(e.1, ATR_BYTES) + rest;
      assert EncodeEntries(entries) + tail == LE(e.0, LABEL_BYTES) + afterLabel;
      ReadLEOf(e.0, LABEL_BYTES, afterLabel);
      ReadLEOf(e.1, ATR_BYTES, rest);
      ReadEntriesOf(entries[1..], tail, attrToId[e.0 := e.1], idToAttr[e.1 := e.0]);
    }
  }

  lemma {:induction false} ReadIdsOf(ids: seq<nat>, tail: seq<byte>, acc: seq<nat>)
    requires IdsFit(ids)
    ensures ReadIds(EncodeIds(ids) + tail, |ids|, acc) == Ok((acc + ids, tail))
    decreases |ids|
  {
    if ids == [] {
      assert EncodeIds(ids) + tail == tail;
      assert acc + ids == acc;
    } else {
      var rest := EncodeIds(ids[1..]) + tail;
      assert EncodeIds(ids) + tail == LE(ids[0], IDX_BYTES) + rest;
      ReadLEOf(ids[0], IDX_BYTES, rest);
      assert IdsFit(ids[1..]);
      ReadIdsOf(ids[1..], tail, acc + [ids[0]]);
      assert acc + [ids[0]] + ids[1..] == acc + ids;
    }
  }

  /** An encoded neighbour list reads back and leaves what follows it. */
  lemma ReadNodeOf(ids: seq<nat>, rest: seq<byte>)
    requires |ids| < Pow256(4) && IdsFit(ids)
    ensures ReadNode(LE(|ids|, 4) + (EncodeIds(ids) + rest)) == Ok((ids, rest))
  {
    ReadLEOf(|ids|, 4, EncodeIds(ids) + rest);
    ReadIdsOf(ids, rest, []);
    assert [] + ids == ids;
  }

  lemma EncodeNodesFront(graph: seq<seq<nat>>, tail: seq<byte>)
    requires graph != []
    ensures EncodeNodes(graph) + tail == LE(|graph[0]|, 4) + (EncodeIds(graph[0]) + (EncodeNodes(graph[1..]) + tail))
  {
  }

  lemma ReadNodesStep(input: seq<byte>, count: nat, acc: seq<seq<nat>>, ids: seq<nat>, rest: seq<byte>)
    requires count > 0 && ReadNode(input) == Ok((ids, rest))
    ensures ReadNodes(input, count, acc) == ReadNodes(rest, count - 1, acc + [ids])
  {
  }

  lemma NodesFitSplit(graph: seq<seq<nat>>)
    requires graph != [] && NodesFit(graph)
    ensures |graph[0]| < Pow256(4) && IdsFit(graph[0]) && NodesFit(graph[1..])
  {
  }

  lemma ConsSplit<T>(acc: seq<T>, s: seq<T>)
    requires s != []
    ensures acc + [s[0]] + s[1..] == acc + s
  {
  }

  lemma {:induction false} ReadNodesOf(graph: seq<seq<nat>>, tail: seq<byte>, acc: seq<seq<nat>>)
    requires NodesFit(graph)
    ensures ReadNodes(EncodeNodes(graph) + tail, |graph|, acc) == Ok((acc + graph, tail))
    decreases |graph|
  {
    if graph == [] {
      assert EncodeNodes(graph) + tail == tail;
      assert acc + graph == acc;
    } else {
      var rest := EncodeNodes(graph[1..]) + tail;
      EncodeNodesFront(graph, tail);
      NodesFitSplit(graph);
      ReadNodeOf(graph[0], rest);
      ReadNodesStep(EncodeNodes(graph) + tail, |graph|, acc, graph[0], rest);
      ReadNodesOf(graph[1..], tail, acc + [graph[0]]);
      ConsSplit(acc, graph);
    }
  }

  /** The adjacency, its count and the checksum, as laid out at the end of a file. */
  lemma GraphRead(graph: seq<seq<nat>>, c: nat)
    requires |graph| < Pow256(8) && NodesFit(graph) && c < Pow256(4)
    ensures GraphLaidOut(graph, c)
  {
    ReadLEOf(|graph|, 8, EncodeNodes(graph) + LE(c, 4));
    ReadNodesOf(graph, LE(c, 4), []);
    assert [] + graph == graph;
    ReadLEOf(c, 4, []);
    assert LE(c, 4) + [] == LE(c, 4);
  }

  ghost predicate GraphLaidOut(graph: seq<seq<nat>>, c: nat)
  {
    var s := LE(|graph|, 8) + (EncodeNodes(graph) + LE(c, 4));
    8 <= |s| && ReadLE(s, 8) == |graph| && ReadNodes(s[8..], ReadLE(s, 8), []) == Ok((graph, LE(c, 4)))
    && 4 <= |LE(c, 4)| && ReadLE(LE(c, 4), 4) == c
  }

  lemma EncodeBodyNested(numPoints: nat, numAttributes: nat, entries: seq<(nat, nat)>, graph: seq<seq<nat>>, c: nat)
    ensures EncodeBody(numPoints, numAttributes, entries, graph) + LE(c, 4) ==
            MAGIC + (LE(numPoints, IDX_BYTES) + (LE(numAttributes, ATR_BYTES) + (LE(|entries|, 8) +
            (EncodeEntries(entries) + (LE(|graph|, 8) + (EncodeNodes(graph) + LE(c, 4)))))))
  {
    var p, m, n := LE(numPoints, IDX_BYTES), LE(numAttributes, ATR_BYTES), LE(|entries|, 8);
    var e, t, g, k := EncodeEntries(entries), LE(|graph|, 8), EncodeNodes(graph), LE(c, 4);
    AppendAssoc(MAGIC + p + m + n + e + t, g, k);
    AppendAssoc(MAGIC + p + m + n + e, t, g + k);
    AppendAssoc(MAGIC + p + m + n, e, t + (g + k));
    AppendAssoc(MAGIC + p + m, n, e + (t + (g + k)));
    AppendAssoc(MAGIC + p, m, n + (e + (t + (g + k))));
    AppendAssoc(MAGIC, p, m + (n + (e + (t + (g + k)))));
  }

  lemma AppendAssoc(a: seq<byte>, b: seq<byte>, c: seq<byte>)
    ensures a + b + c == a + (b + c)
  {
  }

  /** Loading a saved body followed by a 32-bit checksum c restores the image exactly when c
      is the checksum of the saved adjacency, and reports a checksum mismatch otherwise. */
  lemma DecodeBody(numPoints: nat, numAttributes: nat, entries: seq<(nat, nat)>, graph: seq<seq<nat>>, c: nat)
    requires numPoints < Pow256(IDX_BYTES) && numAttributes < Pow256(ATR_BYTES)
    requires |entries| < Pow256(8) && |graph| < Pow256(8) && c < Pow256(4)
    requires EntriesFit(entries) && NodesFit(graph)
    ensures Decode(EncodeBody(numPoints, numAttributes, entries, graph) + LE(c, 4)) ==
            if c == Checksum(graph) as nat
            then Ok(Image(numPoints, numAttributes, ApplyEntries(map[], map[], entries).0,
                          ApplyEntries(map[], map[], entries).1, graph))
            else Err(ChecksumMismatch(Image(numPoints, numAttributes, ApplyEntries(map[], map[], entries).0,
                                            ApplyEntries(map[], map[], entries).1, graph)))
  {
    var t := LE(|graph|, 8) + (EncodeNodes(graph) + LE(c, 4));
    var e := EncodeEntries(entries) + t;
    var n := LE(|entries|, 8) + e;
    var m := LE(numAttributes, ATR_BYTES) + n;
    var p := LE(numPoints, IDX_BYTES) + m;
    var bs := EncodeBody(numPoints, numAttributes, entries, graph) + LE(c, 4);
    EncodeBodyNested(numPoints, numAttributes, entries, graph, c);
    assert bs[..|MAGIC|] == MAGIC && bs[|MAGIC|..] == p;
    ReadLEOf(numPoints, IDX_BYTES, m);
    ReadLEOf(numAttributes, ATR_BYTES, n);
    ReadLEOf(|entries|, 8, e);
    ReadEntriesOf(entries, t, map[], map[]);
    GraphRead(graph, c);
  }

  /** Loading what was saved restores it; the maps are those of storing the saved pairs in
      order. */
  lemma DecodeEncode(numPoints: nat, numAttributes: nat, entries: seq<(nat, nat)>, graph: seq<seq<nat>>)
    requires numPoints < Pow256(IDX_BYTES) && numAttributes < Pow256(ATR_BYTES)
    requires |entries| < Pow256(8) && |graph| < Pow256(8)
    requires EntriesFit(entries) && NodesFit(graph)
    ensures Decode(Encode(numPoints, numAttributes, entries, graph)) ==
            Ok(Image(numPoints, numAttributes, ApplyEntries(map[], map[], entries).0,
                     ApplyEntries(map[], map[], entries).1, graph))
  {
    DecodeBody(numPoints, numAttributes, entries, graph, Checksum(graph) as nat);
  }

  // ---------------------------------------------------------------- loading

  /** The loop of load_bipartite_graph over the attribute map. */
  method ReadAttributeMap(input: seq<byte>, count: nat)
    returns (r: Result<(map<nat, nat>, map<nat, nat>, seq<byte>), LoadError>)
    ensures r == ReadEntries(input, count, map[], map[])
  {
    var attrToId: map<nat, nat>, idToAttr: map<nat, nat>, rest := map[], map[], input;
    for i := 0 to count
      invariant ReadEntries(input, count, map[], map[]) == ReadEntries(rest, count - i, attrToId, idToAttr)
    {
      if |rest| < LABEL_BYTES + ATR_BYTES {
        return Err(Truncated);
      }
      var lab := ReadLE(rest, LABEL_BYTES);
      rest := rest[LABEL_BYTES..];
      var id := ReadLE(rest, ATR_BYTES);
      rest := rest[ATR_BYTES..];
      attrToId := attrToId[lab := id];
      idToAttr := idToAttr[id := lab];
    }
    return Ok((attrToId, idToAttr, rest));
  }

  /** The loop of load_bipartite_graph over the neighbour lists. */
  method ReadAdjacency(input: seq<byte>, count: nat) returns (r: Result<(seq<seq<nat>>, seq<byte>), LoadError>)
    ensures r == ReadNodes(input, count, [])
  {
    var graph, rest := [], input;
    for i := 0 to count
      invariant ReadNodes(input, count, []) == ReadNodes(rest, count - i, graph)
    {
      match ReadNode(rest)
      case Err(e) =>
        return Err(e);
      case Ok((ids, next)) =>
        graph, rest := graph + [ids], next;
    }
    return Ok((graph, rest));
  }

  /** load_bipartite_graph, reading from a byte string. */
  method Load(bs: seq<byte>) returns (r: Result<Image, LoadError>)
    ensures r == Decode(bs)
  {
    if |bs| < |MAGIC| || bs[..|MAGIC|] != MAGIC {
      return Err(InvalidFormat);
    }
    if |bs| < |MAGIC| + IDX_BYTES + ATR_BYTES + 8 {
      return Err(Truncated);
    }
    var input := bs[|MAGIC|..];
    var numPoints := ReadLE(input, IDX_BYTES);
    input := input[IDX_BYTES..];
    var numAttributes := ReadLE(input, ATR_BYTES);
    input := input[ATR_BYTES..];
    var mapSize := ReadLE(input, 8);
    var maps := ReadAttributeMap(input[8..], mapSize);
    assert Decode(bs) == DecodeGraph(numPoints, numAttributes, maps);
    match maps
    case Err(e) =>
      return Err(e);
    case Ok((attrToId, idToAttr, rest)) =>
      if |rest| < 8 {
        return Err(Truncated);
      }
      var nodes := ReadAdjacency(rest[8..], ReadLE(rest, 8));
      match nodes
      case Err(e) =>
        return Err(e);
      case Ok((graph, tail)) =>
        if |tail| < 4 {
          return Err(Truncated);
        }
        var checksum := ComputeChecksum(graph);
        var image := Image(numPoints, numAttributes, attrToId, idToAttr, graph);
        if ReadLE(tail, 4) != checksum as nat {
          return Err(ChecksumMismatch(image));
        }
        return Ok(image);
  }

  // ---------------------------------------------------------------- the attribute maps

  /** entries lists the pairs of attrToId, each at least once, as iterating the map does. */
  ghost predicate Enumerates(entries: seq<(nat, nat)>, attrToId: map<nat, nat>)
  {
    && (forall k :: 0 <= k < |entries| ==> entries[k].0 in attrToId && attrToId[entries[k].0] == entries[k].1)
    && (forall l :: l in attrToId ==> exists k :: 0 <= k < |entries| && entries[k].0 == l)
  }

  /** Storing pairs that agree with two target maps, into maps that agree with them, gives the
      targets once every key of either has been stored. */
  lemma {:induction false} ApplyAgreeing(a: map<nat, nat>, i: map<nat, nat>, entries: seq<(nat, nat)>,
                                         attrToId: map<nat, nat>, idToAttr: map<nat, nat>)
    requires forall l :: l in a ==> l in attrToId && a[l] == attrToId[l]
    requires forall d :: d in i ==> d in idToAttr && i[d] == idToAttr[d]
    requires forall k :: 0 <= k < |entries| ==> && entries[k].0 in attrToId && attrToId[entries[k].0] == entries[k].1
                                                && entries[k].1 in idToAttr && idToAttr[entries[k].1] == entries[k].0
    requires forall l :: l in attrToId ==> l in a || exists k :: 0 <= k < |entries| && entries[k].0 == l
    requires forall d :: d in idToAttr ==> d in i || exists k :: 0 <= k < |entries| && entries[k].1 == d
    ensures ApplyEntries(a, i, entries) == (attrToId, idToAttr)
    decreases |entries|
  {
    if entries == [] {
      assert a == attrToId;
      assert i == idToAttr;
    } else {
      var e := entries[0];
      var a', i' := a[e.0 := e.1], i[e.1 := e.0];
      forall l | l in attrToId ensures l in a' || exists k :: 0 <= k < |entries[1..]| && entries[1..][k].0 == l
      {
        if l !in a' {
          var k :| 0 <= k < |entries| && entries[k].0 == l;
          assert entries[1..][k - 1].0 == l;
        }
      }
      forall d | d in idToAttr ensures d in i' || exists k :: 0 <= k < |entries[1..]| && entries[1..][k].1 == d
      {
        if d !in i' {
          var k :| 0 <= k < |entries| && entries[k].1 == d;
          assert entries[1..][k - 1].1 == d;
        }
      }
      ApplyAgreeing(a', i', entries[1..], attrToId, idToAttr);
    }
  }

  /** Storing, in any order, the pairs of an attribute numbering restores both of its maps. */
  lemma ApplyNumbering(order: seq<nat>, attrToId: map<nat, nat>, idToAttr: map<nat, nat>, entries: seq<(nat, nat)>)
    requires Numbering(order, attrToId, idToAttr) && Enumerates(entries, attrToId)
    ensures ApplyEntries(map[], map[], entries) == (attrToId, idToAttr)
  {
    NumberingInverse(order, attrToId, idToAttr);
    forall d | d in idToAttr ensures exists k :: 0 <= k < |entries| && entries[k].1 == d
    {
      var k :| 0 <= k < |entries| && entries[k].0 == idToAttr[d];
      assert entries[k].1 == d;
    }
    ApplyAgreeing(map[], map[], entries, attrToId, idToAttr);
  }

  /** Saving the bipartite graph of a numbering and loading the file restores the numbering,
      the counts and the adjacency, whatever order the map is iterated in. */
  lemma LoadSaved(numPoints: nat, order: seq<nat>, attrToId: map<nat, nat>, idToAttr: map<nat, nat>,
                  entries: seq<(nat, nat)>, graph: seq<seq<nat>>)
    requires Numbering(order, attrToId, idToAttr) && Enumerates(entries, attrToId)
    requires forall l :: l in attrToId ==> l < Pow256(LABEL_BYTES)
    requires |order| < Pow256(ATR_BYTES) && numPoints < Pow256(IDX_BYTES)
    requires |entries| < Pow256(8) && |graph| < Pow256(8) && NodesFit(graph)
    ensures Decode(Encode(numPoints, |order|, entries, graph)) ==
            Ok(Image(numPoints, |order|, attrToId, idToAttr, graph))
  {
    NumberingInverse(order, attrToId, idToAttr);
    ApplyNumbering(order, attrToId, idToAttr, entries);
    assert EntriesFit(entries);
    DecodeEncode(numPoints, |order|, entries, graph);
  }

  // ---------------------------------------------------------------- comparing two graphs

  /** The neighbour lists agree position by position. */
  predicate SameLists(g1: seq<seq<nat>>, g2: seq<seq<nat>>)
  {
    && |g1| == |g2|
    && forall i :: 0 <= i < |g1| ==>
         |g1[i]| == |g2[i]| && forall j :: 0 <= j < |g1[i]| ==> g1[i][j] == g2[i][j]
  }

  /** Every pair of m1 is a pair of m2. */
  predicate SubMap(m1: map<nat, nat>, m2: map<nat, nat>)
  {
    forall k :: k in m1 ==> k in m2 && m2[k] == m1[k]
  }

  lemma SameListsEqual(g1: seq<seq<nat>>, g2: seq<seq<nat>>)
    ensures SameLists(g1, g2) <==> g1 == g2
  {
    if SameLists(g1, g2) {
      forall i | 0 <= i < |g1| ensures g1[i] == g2[i]
      {
        assert |g1[i]| == |g2[i]|;
      }
    }
  }

  /** A map contained in a map of the same size is that map. */
  lemma SubMapEqual(m1: map<nat, nat>, m2: map<nat, nat>)
    requires SubMap(m1, m2) && |m1| == |m2|
    ensures m1 == m2
  {
    var extra := m2.Keys - m1.Keys;
    assert m2.Keys == m1.Keys + extra;
    assert m1.Keys !! extra;
    assert |m2.Keys| == |m1.Keys| + |extra|;
    assert extra == {};
    assert m1.Keys == m2.Keys;
  }

  /** compare_graphs as written: both counts, the forward map's size and pairs, the reverse
      map's pairs and every neighbour list are compared, but the second reverse map is only
      checked to hold every pair of the first. It accepts exactly the pairs that agree
      everywhere except that the second reverse map may hold more pairs. */
  function CompareGraphsAsWritten(g1: Image, g2: Image): (r: bool)
    ensures r <==> && g1.numPoints == g2.numPoints && g1.numAttributes == g2.numAttributes
                   && g1.attrToId == g2.attrToId && SubMap(g1.idToAttr, g2.idToAttr) && g1.graph == g2.graph
  {
    SameListsEqual(g1.graph, g2.graph);
    var r := && g1.numPoints == g2.numPoints
             && g1.numAttributes == g2.numAttributes
             && |g1.attrToId| == |g2.attrToId|
             && SubMap(g1.attrToId, g2.attrToId)
             && SubMap(g1.idToAttr, g2.idToAttr)
             && SameLists(g1.graph, g2.graph);
    if r then SubMapEqual(g1.attrToId, g2.attrToId); r else r
  }

  /** compare_graphs with the size check on the reverse map that the forward map has: it
      holds exactly for equal restored fields. */
  function CompareGraphs(g1: Image, g2: Image): (r: bool)
    ensures r <==> g1 == g2
  {
    var r := CompareGraphsAsWritten(g1, g2) && |g1.idToAttr| == |g2.idToAttr|;
    if r then SubMapEqual(g1.idToAttr, g2.idToAttr); r else r
  }

  /** Two graphs that differ only by an extra pair in the second reverse map compare equal. */
  lemma CompareGraphsAsWrittenExtraId()
    ensures CompareGraphsAsWritten(Image(0, 0, map[], map[], []), Image(0, 0, map[], map[0 := 0], []))
    ensures Image(0, 0, map[], map[], []) != Image(0, 0, map[], map[0 := 0], [])
  {
    assert 0 in map[0 := 0];
  }

}
