/**
  The in-memory taxonomy index `ImageNetMeta`: every synset of meta.mat keyed
  by its ILSVRC2012 id, split into the 1000 leaf classes and the internal
  nodes, with id-to-wnid, wnid-to-id and id-to-words lookups.
 */
module Taxonomy {
  import opened Wrappers
  import opened MatValues

  /** One synset as the index keeps it. */
  datatype Synset = Synset(
    ilsvrcId: int,
    wnid: string,
    words: string,
    numChildren: int,
    children: seq<int>,
    wordnetHeight: int,
    numTrainImages: int)

  datatype Failure = MetaFileNotFound | Malformed(reason: DecodeError) | KeyError(id: int)

  /** The largest id of a leaf class. */
  const LastLeafId := 1000

  /** Python's str() of a field. */
  function TextOf(v: Raw, lib: Library): (r: string)
    ensures v.Absent? ==> r == "None"
    ensures v.Atom? && v.v.TextS? ==> r == v.v.t
    ensures v.Atom? && v.v.IntS? ==> r == Decimal(v.v.n) && (v.v.n >= 0 ==> DigitsValue(r) == v.v.n)
    ensures v.Atom? && v.v.BytesS? ==> r == lib.bytesRepr(v.v.b)
    ensures v.Arr? ==> r == lib.arrayRepr(v.elems)
  {
    match v
    case Absent => "None"
    case Atom(IntS(n)) => Decimal(n)
    case Atom(TextS(t)) => t
    case Atom(BytesS(b)) => lib.bytesRepr(b)
    case Arr(es) => lib.arrayRepr(es)
  }

  /** One iteration of the loop in `__init__`: the synset one raw entry becomes. */
  function ToSynset(s: RawSynset, lib: Library): (r: Result<Synset, DecodeError>)
    ensures r.Ok? <==>
      && IntOf(s.id).Ok? && ChildIds(s.children).Ok? && IntOf(s.numChildren).Ok?
      && IntOf(s.wordnetHeight).Ok? && IntOf(s.numTrainImages).Ok?
    ensures r.Ok? ==>
      && r.value.ilsvrcId == IntOf(s.id).value
      && r.value.wnid == TextOf(s.wnid, lib)
      && r.value.words == TextOf(s.words, lib)
      && r.value.numChildren == IntOf(s.numChildren).value
      && r.value.children == ChildIds(s.children).value
      && r.value.wordnetHeight == IntOf(s.wordnetHeight).value
      && r.value.numTrainImages == IntOf(s.numTrainImages).value
  {
    match IntOf(s.id)
    case Err(e) => Err(e)
    case Ok(id) =>
      match ChildIds(s.children)
      case Err(e) => Err(e)
      case Ok(children) =>
        match IntOf(s.numChildren)
        case Err(e) => Err(e)
        case Ok(numChildren) =>
          match IntOf(s.wordnetHeight)
          case Err(e) => Err(e)
          case Ok(height) =>
            match IntOf(s.numTrainImages)
            case Err(e) => Err(e)
            case Ok(images) =>
              Ok(Synset(id, TextOf(s.wnid, lib), TextOf(s.words, lib), numChildren, children, height, images))
  }

  /** Every raw entry decoded, in order; the first entry that fails decides the error. */
  function Decode(raws: seq<RawSynset>, lib: Library): (r: Result<seq<Synset>, DecodeError>)
    ensures r.Ok? <==> forall k | 0 <= k < |raws| :: ToSynset(raws[k], lib).Ok?
    ensures r.Ok? ==> |r.value| == |raws| && forall k | 0 <= k < |raws| :: r.value[k] == ToSynset(raws[k], lib).value
    decreases |raws|
  {
    if raws == [] then Ok([])
    else
      var n := |raws| - 1;
      match Decode(raws[..n], lib)
      case Err(e) => Err(e)
      case Ok(ds) =>
        match ToSynset(raws[n], lib)
        case Err(e) => Err(e)
        case Ok(d) => Ok(ds + [d])
  }

  /** Once a prefix fails to decode, so does every extension of it, with the same error. */
  lemma {:induction false} DecodeKeepsError(raws: seq<RawSynset>, lib: Library, i: nat)
    requires i <= |raws| && Decode(raws[..i], lib).Err?
    ensures Decode(raws, lib) == Decode(raws[..i], lib)
    decreases |raws| - i
  {
    if i < |raws| {
      assert raws[..i + 1][..i] == raws[..i];
      assert Decode(raws[..i + 1], lib) == Decode(raws[..i], lib);
      DecodeKeepsError(raws, lib, i + 1);
    } else {
      assert raws[..i] == raws;
    }
  }

  /** Decoding one more entry after a prefix that decoded. */
  lemma DecodeStep(raws: seq<RawSynset>, lib: Library, i: int, done: seq<Synset>)
    requires 0 <= i < |raws| && Decode(raws[..i], lib) == Ok(done)
    ensures ToSynset(raws[i], lib).Err? ==> Decode(raws, lib) == Err(ToSynset(raws[i], lib).error)
    ensures ToSynset(raws[i], lib).Ok? ==> Decode(raws[..i + 1], lib) == Ok(done + [ToSynset(raws[i], lib).value])
  {
    assert raws[..i + 1][..i] == raws[..i];
    if ToSynset(raws[i], lib).Err? {
      DecodeKeepsError(raws, lib, i + 1);
    }
  }

  /**
    The `synsets` dict with its insertion order: `byId` holds the entries,
    `order` the keys in the order Python iterates them.
   */
  datatype Index = Index(byId: map<int, Synset>, order: seq<int>)

  /** Every key once in `order`, and every synset filed under its own id. */
  ghost predicate Indexed(idx: Index)
  {
    && (forall a, b | 0 <= a < b < |idx.order| :: idx.order[a] != idx.order[b])
    && (forall k :: k in idx.byId <==> k in idx.order)
    && (forall k | k in idx.byId :: idx.byId[k].ilsvrcId == k)
  }

  /** `synsets[ilsvrc_id] = Synset(...)`: a new key goes last, an existing key keeps its place. */
  function Put(idx: Index, s: Synset): (r: Index)
    ensures r.byId == idx.byId[s.ilsvrcId := s]
    ensures s.ilsvrcId in idx.byId ==> r.order == idx.order
    ensures s.ilsvrcId !in idx.byId ==> r.order == idx.order + [s.ilsvrcId]
    ensures Indexed(idx) ==> Indexed(r)
  {
    if s.ilsvrcId in idx.byId then Index(idx.byId[s.ilsvrcId := s], idx.order)
    else Index(idx.byId[s.ilsvrcId := s], idx.order + [s.ilsvrcId])
  }

  /** The dict the loop of `__init__` leaves behind after filing `ds` one by one. */
  function Build(ds: seq<Synset>): (r: Index)
    ensures Indexed(r)
    decreases |ds|
  {
    if ds == [] then Index(map[], [])
    else Put(Build(ds[..|ds| - 1]), ds[|ds| - 1])
  }

  function Ids(ds: seq<Synset>): set<int>
  {
    set d | d in ds :: d.ilsvrcId
  }

  lemma IdsSnoc(ds: seq<Synset>)
    requires ds != []
    ensures Ids(ds) == Ids(ds[..|ds| - 1]) + {ds[|ds| - 1].ilsvrcId}
  {
    var n := |ds| - 1;
    forall x | x in ds ensures x in ds[..n] || x == ds[n] {
      var j :| 0 <= j < |ds| && ds[j] == x;
      if j < n {
        assert ds[..n][j] == x;
      }
    }
    forall x | x in ds[..n] ensures x in ds {
      var j :| 0 <= j < n && ds[..n][j] == x;
      assert ds[j] == x;
    }
  }

  /** The dict has a key for exactly the ids that occur. */
  lemma {:induction false} BuildKeys(ds: seq<Synset>)
    ensures Build(ds).byId.Keys == Ids(ds)
    decreases |ds|
  {
    if ds != [] {
      var n := |ds| - 1;
      BuildKeys(ds[..n]);
      assert Build(ds) == Put(Build(ds[..n]), ds[n]);
      IdsSnoc(ds);
    }
  }

  /** Last record wins: an entry with no later entry of the same id is the one kept. */
  lemma {:induction false} BuildLastWins(ds: seq<Synset>, i: int)
    requires 0 <= i < |ds|
    requires forall j | i < j < |ds| :: ds[j].ilsvrcId != ds[i].ilsvrcId
    ensures ds[i].ilsvrcId in Build(ds).byId && Build(ds).byId[ds[i].ilsvrcId] == ds[i]
    decreases |ds|
  {
    var n := |ds| - 1;
    if i < n {
      var p := ds[..n];
      assert p[i] == ds[i];
      BuildLastWins(p, i);
    }
  }

  /** `k` first occurs in `ds` at position `i`. */
  ghost predicate FirstAt(ds: seq<Synset>, k: int, i: int)
  {
    0 <= i < |ds| && ds[i].ilsvrcId == k && forall j | 0 <= j < i :: ds[j].ilsvrcId != k
  }

  lemma FirstAtPrefix(ds: seq<Synset>, k: int, i: int)
    requires ds != [] && k in Ids(ds[..|ds| - 1]) && FirstAt(ds, k, i)
    ensures FirstAt(ds[..|ds| - 1], k, i)
  {
    var p := ds[..|ds| - 1];
    var d :| d in p && d.ilsvrcId == k;
    var j :| 0 <= j < |p| && p[j] == d;
    assert ds[j] == d;
  }

  /** The dict iterates its keys in the order of their first occurrence. */
  lemma {:induction false} BuildOrder(ds: seq<Synset>)
    ensures forall a, b, ia, ib |
      0 <= a < b < |Build(ds).order| && FirstAt(ds, Build(ds).order[a], ia) && FirstAt(ds, Build(ds).order[b], ib) :: ia < ib
    decreases |ds|
  {
    if ds != [] {
      var n := |ds| - 1;
      var p := ds[..n];
      var d := ds[n];
      BuildOrder(p);
      BuildKeys(p);
      var order := Build(ds).order;
      forall a, b, ia, ib | 0 <= a < b < |order| && FirstAt(ds, order[a], ia) && FirstAt(ds, order[b], ib)
        ensures ia < ib
      {
        var po := Build(p).order;
        assert po[a] == order[a];
        assert po[a] in Build(p).byId;
        FirstAtPrefix(ds, order[a], ia);
        if b < |po| {
          assert po[b] == order[b];
          assert po[b] in Build(p).byId;
          FirstAtPrefix(ds, order[b], ib);
        } else {
          assert order[b] == d.ilsvrcId && d.ilsvrcId !in Ids(p);
        }
      }
    }
  }

  /** The ids `leaf_ids` keeps, in dict order: those up to 1000. */
  function LeafIds(order: seq<int>): (r: seq<int>)
    ensures forall k :: k in r <==> k in order && k <= LastLeafId
    ensures forall j | 0 <= j < |r| :: r[j] in order && r[j] <= LastLeafId
    ensures |r| <= |order|
    decreases |order|
  {
    if order == [] then []
    else
      var n := |order| - 1;
      LeafIds(order[..n]) + (if order[n] <= LastLeafId then [order[n]] else [])
  }

  /** The ids `internal_ids` keeps, in dict order: those above 1000. */
  function InternalIds(order: seq<int>): (r: seq<int>)
    ensures forall k :: k in r <==> k in order && k > LastLeafId
    ensures |r| <= |order|
    decreases |order|
  {
    if order == [] then []
    else
      var n := |order| - 1;
      InternalIds(order[..n]) + (if order[n] > LastLeafId then [order[n]] else [])
  }

  /** Filtering keeps the dict order: the ids of a concatenation are the ids of its parts, in turn. */
  lemma {:induction false} FiltersAppend(a: seq<int>, b: seq<int>)
    ensures LeafIds(a + b) == LeafIds(a) + LeafIds(b)
    ensures InternalIds(a + b) == InternalIds(a) + InternalIds(b)
    decreases |b|
  {
    if b == [] {
      assert a + b == a;
    } else {
      var n := |b| - 1;
      assert (a + b)[..|a + b| - 1] == a + b[..n];
      FiltersAppend(a, b[..n]);
    }
  }

  /** Every key goes to exactly one of the two lists. */
  lemma {:induction false} FiltersPartition(order: seq<int>)
    ensures |LeafIds(order)| + |InternalIds(order)| == |order|
    decreases |order|
  {
    if order != [] {
      FiltersPartition(order[..|order| - 1]);
    }
  }

  /** `id_to_wnid`: one entry per synset, holding its wnid. */
  function WnidsById(byId: map<int, Synset>): (r: map<int, string>)
    ensures r.Keys == byId.Keys
    ensures forall i | i in byId :: r[i] == byId[i].wnid
  {
    map i | i in byId :: byId[i].wnid
  }

  /** `id_to_words`: one entry per synset, holding its synonym text. */
  function WordsById(byId: map<int, Synset>): (r: map<int, string>)
    ensures r.Keys == byId.Keys
    ensures forall i | i in byId :: r[i] == byId[i].words
  {
    map i | i in byId :: byId[i].words
  }

  /** Every id of `order` has an entry in `byId`. */
  predicate KeysIn(byId: map<int, Synset>, order: seq<int>)
  {
    forall j | 0 <= j < |order| :: order[j] in byId
  }

  /**
    `wnid_to_id`: a dict comprehension over the synsets in dict order, so a
    wnid shared by several synsets ends up with the id met last.
   */
  function WnidIndex(byId: map<int, Synset>, order: seq<int>): (r: map<string, int>)
    requires KeysIn(byId, order)
    ensures forall w | w in r :: r[w] in order && r[w] in byId && byId[r[w]].wnid == w
    ensures forall k | k in order :: byId[k].wnid in r
    decreases |order|
  {
    if order == [] then map[]
    else
      var n := |order| - 1;
      WnidIndex(byId, order[..n])[byId[order[n]].wnid := order[n]]
  }

  lemma KeysInPrefix(byId: map<int, Synset>, order: seq<int>, n: int)
    requires KeysIn(byId, order) && 0 <= n <= |order|
    ensures KeysIn(byId, order[..n])
  {
    forall j | 0 <= j < n ensures order[..n][j] in byId {
      assert order[..n][j] == order[j];
    }
  }

  /** The id kept for a wnid is the last id in dict order that carries it. */
  lemma {:induction false} WnidIndexLaterWins(byId: map<int, Synset>, order: seq<int>, b: int)
    requires KeysIn(byId, order)
    requires 0 <= b < |order|
    requires forall j | b < j < |order| :: byId[order[j]].wnid != byId[order[b]].wnid
    ensures WnidIndex(byId, order)[byId[order[b]].wnid] == order[b]
    decreases |order|
  {
    var n := |order| - 1;
    var p := order[..n];
    KeysInPrefix(byId, order, n);
    var w := byId[order[n]].wnid;
    assert WnidIndex(byId, order) == WnidIndex(byId, p)[w := order[n]];
    if b < n {
      assert p[b] == order[b];
      forall j | b < j < |p| ensures byId[p[j]].wnid != byId[p[b]].wnid {
        assert p[j] == order[j];
      }
      WnidIndexLaterWins(byId, p, b);
      assert w != byId[order[b]].wnid;
    }
  }

  /** With distinct wnids, looking an id's wnid up again gives back the id. */
  lemma WnidRoundTrip(byId: map<int, Synset>, order: seq<int>, i: int)
    requires KeysIn(byId, order)
    requires forall a, b | 0 <= a < b < |order| :: byId[order[a]].wnid != byId[order[b]].wnid
    requires i in order
    ensures WnidIndex(byId, order)[byId[i].wnid] == i
  {
    var b :| 0 <= b < |order| && order[b] == i;
    WnidIndexLaterWins(byId, order, b);
  }

  /** The metadata index built from meta.mat. */
  class ImageNetMeta {
    var synsets: map<int, Synset>
    /** The order in which `synsets` iterates its keys. */
    var keyOrder: seq<int>
    var leafIds: seq<int>
    var internalIds: seq<int>
    var idToWnid: map<int, string>
    var wnidToId: map<string, int>
    var idToWords: map<int, string>

    ghost predicate Valid()
      reads this
    {
      && Indexed(Index(synsets, keyOrder))
      && KeysIn(synsets, keyOrder)
      && leafIds == LeafIds(keyOrder)
      && internalIds == InternalIds(keyOrder)
      && idToWnid == WnidsById(synsets)
      && wnidToId == WnidIndex(synsets, keyOrder)
      && idToWords == WordsById(synsets)
    }

    /** The field assignments at the end of `__init__`, from the filled dict. */
    constructor FromIndex(idx: Index)
      requires Indexed(idx)
      ensures Valid()
      ensures synsets == idx.byId && keyOrder == idx.order
    {
      IndexedKeysIn(idx);
      synsets := idx.byId;
      keyOrder := idx.order;
      leafIds := LeafIds(idx.order);
      internalIds := InternalIds(idx.order);
      idToWnid := WnidsById(idx.byId);
      wnidToId := WnidIndex(idx.byId, idx.order);
      idToWords := WordsById(idx.byId);
    }

    /** `get_leaf_synsets`: the leaf synsets, in dict order. */
    function LeafSynsets(): (r: seq<Synset>)
      reads this
      requires Valid()
      ensures |r| == |leafIds|
      ensures forall k | 0 <= k < |r| :: r[k] == synsets[leafIds[k]] && r[k].ilsvrcId == leafIds[k] <= LastLeafId
    {
      var ids, byId := leafIds, synsets;
      assert forall k | 0 <= k < |ids| :: ids[k] in keyOrder;
      seq(|ids|, k requires 0 <= k < |ids| => byId[ids[k]])
    }

    /** `get_synset`: the synset filed under `id`, or a KeyError. */
    function GetSynset(id: int): (r: Result<Synset, Failure>)
      reads this
      ensures r.Ok? <==> id in synsets
      ensures r.Ok? ==> r.value == synsets[id]
      ensures r.Ok? && Valid() ==> r.value.ilsvrcId == id
      ensures r.Err? ==> r.error == KeyError(id)
    {
      if id in synsets then Ok(synsets[id]) else Err(KeyError(id))
    }
  }

  lemma IndexedKeysIn(idx: Index)
    requires Indexed(idx)
    ensures KeysIn(idx.byId, idx.order)
  {
    forall j | 0 <= j < |idx.order| ensures idx.order[j] in idx.byId {
      assert idx.order[j] in idx.order;
    }
  }

  /** `leaf_ids` and `internal_ids` split the keys: disjoint, together all of them, by the 1000 bound. */
  lemma LeafPartition(m: ImageNetMeta)
    requires m.Valid()
    ensures forall i | i in m.synsets :: (i in m.leafIds <==> i <= LastLeafId) && (i in m.internalIds <==> i > LastLeafId)
    ensures forall i :: i in m.leafIds || i in m.internalIds ==> i in m.synsets
    ensures |m.leafIds| + |m.internalIds| == |m.synsets|
  {
    FiltersPartition(m.keyOrder);
    IndexedSize(Index(m.synsets, m.keyOrder));
  }

  lemma IndexedSize(idx: Index)
    requires Indexed(idx)
    ensures |idx.byId| == |idx.order|
  {
    DistinctCard(idx.order);
    assert idx.byId.Keys == set k | k in idx.order;
  }

  /** The three lookups agree with `synsets`; every wnid lookup leads to a synset with that wnid. */
  lemma LookupViews(m: ImageNetMeta)
    requires m.Valid()
    ensures m.idToWnid.Keys == m.synsets.Keys && m.idToWords.Keys == m.synsets.Keys
    ensures forall i | i in m.synsets :: m.idToWnid[i] == m.synsets[i].wnid && m.idToWords[i] == m.synsets[i].words
    ensures forall w | w in m.wnidToId :: m.wnidToId[w] in m.synsets && m.synsets[m.wnidToId[w]].wnid == w
    ensures forall i | i in m.synsets :: m.idToWnid[i] in m.wnidToId
  {
  }

  lemma {:induction false} DistinctCard(s: seq<int>)
    requires forall a, b | 0 <= a < b < |s| :: s[a] != s[b]
    ensures |set k | k in s| == |s|
    decreases |s|
  {
    if s != [] {
      var n := |s| - 1;
      var p := s[..n];
      DistinctCard(p);
      assert (set k | k in s) == (set k | k in p) + {s[n]};
      assert s[n] !in p;
    }
  }

  /**
    `ImageNetMeta(meta_mat_path)`: a missing file fails first; otherwise the
    entries are filed one by one, and the first entry that does not decode
    aborts the construction.
   */
  method Open(metaExists: bool, raws: seq<RawSynset>, lib: Library) returns (r: Result<ImageNetMeta, Failure>)
    ensures !metaExists ==> r == Err(MetaFileNotFound)
    ensures metaExists && Decode(raws, lib).Err? ==> r == Err(Malformed(Decode(raws, lib).error))
    ensures metaExists && Decode(raws, lib).Ok? ==>
      && r.Ok? && fresh(r.value) && r.value.Valid()
      && r.value.synsets == Build(Decode(raws, lib).value).byId
      && r.value.keyOrder == Build(Decode(raws, lib).value).order
  {
    if !metaExists {
      return Err(MetaFileNotFound);
    }
    var idx := Index(map[], []);
    ghost var done: seq<Synset> := [];
    for i := 0 to |raws|
      invariant Decode(raws[..i], lib) == Ok(done)
      invariant idx == Build(done)
    {
      DecodeStep(raws, lib, i, done);
      var s := ToSynset(raws[i], lib);
      if s.Err? {
        return Err(Malformed(s.error));
      }
      assert (done + [s.value])[..|done|] == done;
      assert Build(done + [s.value]) == Put(Build(done), s.value);
      idx := Put(idx, s.value);
      done := done + [s.value];
    }
    assert raws[..|raws|] == raws;
    var meta := new ImageNetMeta.FromIndex(idx);
    return Ok(meta);
  }
}
