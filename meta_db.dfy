/**
  The SQLite store built by imagenet_meta_to_sqlite.py, modelled abstractly:
  table `synsets` (key `synset_id`, unique non-null `wnid`, generated
  `omwid`) and table `synset_children` (key `(parent_id, child_id)`, both
  columns referencing `synsets.synset_id`), and `insert_metadata`, which
  inserts every entity row and then every edge row in one transaction.
 */
module MetaDb {
  import opened Wrappers
  import opened MetaRecords

  /** One row of `synsets`, without its key. */
  datatype Row = Row(
    wnid: string,
    headword: Option<string>,
    words: Option<string>,
    gloss: Option<string>,
    numChildren: Option<int>,
    wordnetHeight: Option<int>,
    numTrainImages: Option<int>)
  {
    /** The generated column `omwid`: always recomputed from `wnid`. */
    function OmwId(): string
    {
      OmwIdOf(wnid)
    }
  }

  /** `'omw-en-' || SUBSTR(wnid, 2) || '-n'`: the wnid without its first character, wrapped. */
  function OmwIdOf(wnid: string): (r: string)
    ensures |r| == if wnid == [] then 9 else |wnid| + 8
    ensures r[..7] == "omw-en-" && r[|r| - 2..] == "-n"
    ensures wnid != [] ==> r[7..|r| - 2] == wnid[1..]
    ensures wnid == [] ==> r == "omw-en--n"
  {
    "omw-en-" + (if wnid == [] then "" else wnid[1..]) + "-n"
  }

  /** Wnids that share their first character (the part of speech) have distinct omwids. */
  lemma OmwIdInjective(a: string, b: string)
    requires a != [] && b != [] && a[0] == b[0]
    requires OmwIdOf(a) == OmwIdOf(b)
    ensures a == b
  {
    var oa := OmwIdOf(a);
    assert a[1..] == oa[7..|oa| - 2] == b[1..];
    assert a == [a[0]] + a[1..] && b == [b[0]] + b[1..];
  }

  /** The contents of both tables; `wnids` is the unique index on `synsets.wnid`. */
  datatype Tables = Tables(synsets: map<int, Row>, wnids: set<string>, children: set<(int, int)>)

  /** The schema's constraints: the unique index is exact, wnids are unique, edges reference stored ids. */
  ghost predicate Consistent(t: Tables)
  {
    && t.wnids == (set k | k in t.synsets :: t.synsets[k].wnid)
    && (forall k, k' | k in t.synsets && k' in t.synsets && k != k' :: t.synsets[k].wnid != t.synsets[k'].wnid)
    && (forall e | e in t.children :: e.0 in t.synsets && e.1 in t.synsets)
  }

  /** The constraint an INSERT violated. */
  datatype Violation =
    | NullWnid
    | DuplicateId(id: int)
    | DuplicateWnid(wnid: string)
    | NullParent
    | DuplicateChild(parent: int, child: int)
    | DanglingChild(parent: int, child: int)

  /** One executed INSERT: an entity row, or an edge row `(parent_id, child_id)`. */
  datatype Stmt = InsertSynset(rec: Record) | InsertChild(parent: Option<int>, child: int)

  lemma Member<T>(s: set<T>) returns (x: T)
    requires s != {}
    ensures x in s
  {
    x :| x in s;
  }

  lemma {:induction false} MaxKeyExists(keys: set<int>)
    requires keys != {}
    ensures exists m :: m in keys && forall k | k in keys :: k <= m
    decreases keys
  {
    var x := Member(keys);
    if keys == {x} {
      assert forall k | k in keys :: k <= x;
    } else {
      var rest := keys - {x};
      MaxKeyExists(rest);
      var m :| m in rest && forall k | k in rest :: k <= m;
      var top := if m < x then x else m;
      forall k | k in keys ensures k <= top {
        if k != x {
          assert k in rest;
        }
      }
      assert top in keys;
    }
  }

  function MaxKey(keys: set<int>): (m: int)
    requires keys != {}
    ensures m in keys && forall k | k in keys :: k <= m
  {
    MaxKeyExists(keys);
    var m :| m in keys && forall k | k in keys :: k <= m;
    m
  }

  /** The rowid SQLite gives a NULL `INTEGER PRIMARY KEY`: one above the largest in use, 1 in an empty table. */
  function NextRowId(keys: set<int>): (r: int)
    ensures r !in keys
    ensures forall k | k in keys :: k < r
    ensures keys == {} ==> r == 1
  {
    if keys == {} then 1 else MaxKey(keys) + 1
  }

  function RowOf(rec: Record): Row
    requires rec.wnid.Some?
  {
    Row(rec.wnid.value, rec.headword, rec.words, rec.gloss, rec.numChildren, rec.wordnetHeight, rec.numTrainImages)
  }

  /** One INSERT under the schema's constraints: NOT NULL first, then the keys, then the references. */
  function Step(t: Tables, st: Stmt): (r: Result<Tables, Violation>)
    ensures r.Ok? ==> Grows(t, r.value)
    ensures st.InsertSynset? ==>
      (r.Ok? <==> && st.rec.wnid.Some? && st.rec.wnid.value !in t.wnids
                  && (st.rec.synsetId.Some? ==> st.rec.synsetId.value !in t.synsets))
    ensures st.InsertSynset? && st.rec.wnid.None? ==> r == Err(NullWnid)
    ensures st.InsertSynset? && r.Ok? ==>
      var id := if st.rec.synsetId.Some? then st.rec.synsetId.value else NextRowId(t.synsets.Keys);
      && id !in t.synsets
      && r.value == Tables(t.synsets[id := RowOf(st.rec)], t.wnids + {st.rec.wnid.value}, t.children)
    ensures st.InsertChild? ==>
      (r.Ok? <==> && st.parent.Some? && (st.parent.value, st.child) !in t.children
                  && st.parent.value in t.synsets && st.child in t.synsets)
    ensures st.InsertChild? && r.Ok? ==> r.value == t.(children := t.children + {(st.parent.value, st.child)})
  {
    match st
    case InsertSynset(rec) =>
      if rec.wnid.None? then Err(NullWnid)
      else
        var id := if rec.synsetId.Some? then rec.synsetId.value else NextRowId(t.synsets.Keys);
        if id in t.synsets then Err(DuplicateId(id))
        else if rec.wnid.value in t.wnids then Err(DuplicateWnid(rec.wnid.value))
        else Ok(Tables(t.synsets[id := RowOf(rec)], t.wnids + {rec.wnid.value}, t.children))
    case InsertChild(parent, child) =>
      if parent.None? then Err(NullParent)
      else if (parent.value, child) in t.children then Err(DuplicateChild(parent.value, child))
      else if parent.value !in t.synsets || child !in t.synsets then Err(DanglingChild(parent.value, child))
      else Ok(t.(children := t.children + {(parent.value, child)}))
  }

  /** Nothing stored in `t` is lost or changed in `u`. */
  ghost predicate Grows(t: Tables, u: Tables)
  {
    && (forall k | k in t.synsets :: k in u.synsets && u.synsets[k] == t.synsets[k])
    && t.wnids <= u.wnids
    && t.children <= u.children
  }

  /** A sequence of INSERTs; the first violation aborts. */
  function Run(t: Tables, stmts: seq<Stmt>): (r: Result<Tables, Violation>)
    ensures r.Ok? ==> Grows(t, r.value)
    ensures r.Ok? ==> forall k | 0 <= k < |stmts| :: !stmts[k].InsertChild? || stmts[k].parent.Some?
    ensures r.Ok? ==> forall k | 0 <= k < |stmts| :: !stmts[k].InsertSynset? || stmts[k].rec.wnid.Some?
    decreases |stmts|
  {
    if stmts == [] then Ok(t)
    else
      match Step(t, stmts[0])
      case Err(e) => Err(e)
      case Ok(u) => Run(u, stmts[1..])
  }

  lemma {:induction false} RunAppend(t: Tables, a: seq<Stmt>, b: seq<Stmt>)
    ensures Run(t, a + b) == match Run(t, a) case Err(e) => Err(e) case Ok(u) => Run(u, b)
    decreases |a|
  {
    if a == [] {
      assert a + b == b;
    } else {
      assert (a + b)[0] == a[0] && (a + b)[1..] == a[1..] + b;
      match Step(t, a[0]) {
        case Err(e) =>
        case Ok(u) => RunAppend(u, a[1..], b);
      }
    }
  }

  /** No INSERT that succeeds breaks a constraint of the schema. */
  lemma StepKeepsConsistent(t: Tables, st: Stmt)
    requires Consistent(t)
    requires Step(t, st).Ok?
    ensures Consistent(Step(t, st).value)
  {
    var u := Step(t, st).value;
    if st.InsertSynset? {
      var rec := st.rec;
      var id := if rec.synsetId.Some? then rec.synsetId.value else NextRowId(t.synsets.Keys);
      assert u.synsets == t.synsets[id := RowOf(rec)];
      assert u.wnids == (set k | k in u.synsets :: u.synsets[k].wnid) by {
        forall w | w in u.wnids ensures w in (set k | k in u.synsets :: u.synsets[k].wnid) {
          if w != rec.wnid.value {
            var k :| k in t.synsets && t.synsets[k].wnid == w;
            assert u.synsets[k] == t.synsets[k];
          } else {
            assert u.synsets[id].wnid == w;
          }
        }
      }
    }
  }

  lemma {:induction false} RunKeepsConsistent(t: Tables, stmts: seq<Stmt>)
    requires Consistent(t)
    requires Run(t, stmts).Ok?
    ensures Consistent(Run(t, stmts).value)
    decreases |stmts|
  {
    if stmts != [] {
      StepKeepsConsistent(t, stmts[0]);
      RunKeepsConsistent(Step(t, stmts[0]).value, stmts[1..]);
    }
  }

  /** The first executemany: one entity row per record, in order. */
  function SynsetStmts(recs: seq<Record>): (r: seq<Stmt>)
  {
    seq(|recs|, i requires 0 <= i < |recs| => InsertSynset(recs[i]))
  }

  /** The edge parameters of one record: `(synset_id, c)` for each child `c`, in order. */
  function ParamsOf(rec: Record): seq<(Option<int>, int)>
  {
    seq(|rec.children|, j requires 0 <= j < |rec.children| => (rec.synsetId, rec.children[j]))
  }

  /** The parameter list of the second executemany, record by record. */
  function ChildParams(recs: seq<Record>): (r: seq<(Option<int>, int)>)
    ensures |r| == TotalChildren(recs)
  {
    if recs == [] then [] else ChildParams(recs[..|recs| - 1]) + ParamsOf(recs[|recs| - 1])
  }

  function ChildStmts(ps: seq<(Option<int>, int)>): seq<Stmt>
  {
    seq(|ps|, k requires 0 <= k < |ps| => InsertChild(ps[k].0, ps[k].1))
  }

  /** Everything `insert_metadata` executes, entity rows first. */
  function Statements(recs: seq<Record>): (r: seq<Stmt>)
    ensures |r| == |recs| + TotalChildren(recs)
    ensures forall k | 0 <= k < |recs| :: r[k] == InsertSynset(recs[k])
    ensures forall k | |recs| <= k < |r| :: r[k].InsertChild?
  {
    SynsetStmts(recs) + ChildStmts(ChildParams(recs))
  }

  function TotalChildren(recs: seq<Record>): nat
  {
    if recs == [] then 0 else TotalChildren(recs[..|recs| - 1]) + |recs[|recs| - 1].children|
  }

  /** Edge row `TotalChildren(recs[..i]) + j` is `(synset_id, c)` for child `j` of record `i`. */
  lemma {:induction false} ChildParamsAt(recs: seq<Record>, i: int, j: int)
    requires 0 <= i < |recs| && 0 <= j < |recs[i].children|
    ensures |ChildParams(recs)| == TotalChildren(recs)
    ensures TotalChildren(recs[..i]) + j < |ChildParams(recs)|
    ensures ChildParams(recs)[TotalChildren(recs[..i]) + j] == (recs[i].synsetId, recs[i].children[j])
    decreases |recs|
  {
    var n := |recs| - 1;
    var pre := recs[..n];
    assert TotalChildren(recs) == TotalChildren(pre) + |recs[n].children|;
    if i < n {
      assert pre[..i] == recs[..i];
      ChildParamsAt(pre, i, j);
      TotalChildrenPrefix(pre, i);
    } else {
      assert pre == recs[..i];
    }
  }

  lemma {:induction false} TotalChildrenPrefix(recs: seq<Record>, i: int)
    requires 0 <= i < |recs|
    ensures TotalChildren(recs[..i]) + |recs[i].children| <= TotalChildren(recs)
    decreases |recs|
  {
    var n := |recs| - 1;
    if i < n {
      assert recs[..n][..i] == recs[..i];
      TotalChildrenPrefix(recs[..n], i);
    } else {
      assert recs[..n] == recs[..i];
    }
  }

  lemma ParamsOfMembers(rec: Record, p: Option<int>, c: int)
    ensures (p, c) in ParamsOf(rec) <==> rec.synsetId == p && c in rec.children
  {
    if (p, c) in ParamsOf(rec) {
      var j :| 0 <= j < |rec.children| && ParamsOf(rec)[j] == (p, c);
      assert rec.children[j] == c;
    }
    if rec.synsetId == p && c in rec.children {
      var j :| 0 <= j < |rec.children| && rec.children[j] == c;
      assert ParamsOf(rec)[j] == (p, c);
    }
  }

  /** Some record of `recs` has id `p` and lists child `c`. */
  predicate HasEdge(recs: seq<Record>, p: Option<int>, c: int)
  {
    exists i | 0 <= i < |recs| :: recs[i].synsetId == p && c in recs[i].children
  }

  lemma HasEdgeSnoc(recs: seq<Record>, p: Option<int>, c: int)
    requires recs != []
    ensures HasEdge(recs, p, c) <==>
      HasEdge(recs[..|recs| - 1], p, c) || (recs[|recs| - 1].synsetId == p && c in recs[|recs| - 1].children)
  {
    var n := |recs| - 1;
    if HasEdge(recs, p, c) {
      var i :| 0 <= i < |recs| && recs[i].synsetId == p && c in recs[i].children;
      if i < n {
        assert recs[..n][i] == recs[i];
      }
    }
    if HasEdge(recs[..n], p, c) {
      var i :| 0 <= i < n && recs[..n][i].synsetId == p && c in recs[..n][i].children;
      assert recs[..n][i] == recs[i];
    }
  }

  /** An edge row `(p, c)` is issued exactly when some record with id `p` lists child `c`. */
  lemma {:induction false} ChildParamsMembers(recs: seq<Record>, p: Option<int>, c: int)
    ensures (p, c) in ChildParams(recs) <==> HasEdge(recs, p, c)
    decreases |recs|
  {
    if recs != [] {
      var n := |recs| - 1;
      assert ChildParams(recs) == ChildParams(recs[..n]) + ParamsOf(recs[n]);
      ChildParamsMembers(recs[..n], p, c);
      ParamsOfMembers(recs[n], p, c);
      HasEdgeSnoc(recs, p, c);
    }
  }

  /** Where the edge row for child `j` of record `i` stands among all statements. */
  function EdgePosition(recs: seq<Record>, i: int, j: int): int
    requires 0 <= i < |recs|
  {
    |recs| + TotalChildren(recs[..i]) + j
  }

  /**
    Where `insert_metadata` issues each edge row: the row for child `j` of
    record `i` comes after all entity rows, and after the edge rows of the
    records before `i` and of the children before `j`.
   */
  lemma InsertOrder(recs: seq<Record>, i: int, j: int)
    requires 0 <= i < |recs| && 0 <= j < |recs[i].children|
    ensures EdgePosition(recs, i, j) < |Statements(recs)|
    ensures Statements(recs)[EdgePosition(recs, i, j)] == InsertChild(recs[i].synsetId, recs[i].children[j])
  {
    ChildParamsAt(recs, i, j);
    var k := TotalChildren(recs[..i]) + j;
    var ps := ChildParams(recs);
    assert Statements(recs) == SynsetStmts(recs) + ChildStmts(ps);
    assert ChildStmts(ps)[k] == InsertChild(ps[k].0, ps[k].1);
  }

  predicate IdsGiven(recs: seq<Record>)
  {
    forall i | 0 <= i < |recs| :: recs[i].synsetId.Some?
  }

  function IdSet(recs: seq<Record>): set<int>
  {
    set r | r in recs && r.synsetId.Some? :: r.synsetId.value
  }

  function WnidSet(recs: seq<Record>): set<string>
  {
    set r | r in recs && r.wnid.Some? :: r.wnid.value
  }

  /**
    When the entity rows all go in: every record has a wnid, no id or wnid
    is already stored, and no two records share an id or a wnid.
   */
  ghost predicate RowsAdmissible(t: Tables, recs: seq<Record>)
    requires IdsGiven(recs)
  {
    && (forall i | 0 <= i < |recs| ::
          recs[i].wnid.Some? && recs[i].synsetId.value !in t.synsets && recs[i].wnid.value !in t.wnids)
    && (forall i, j | 0 <= i < j < |recs| ::
          recs[i].synsetId != recs[j].synsetId && recs[i].wnid != recs[j].wnid)
  }

  /**
    When the edge rows all go in: every parent is given, no edge is stored
    already or issued twice, and both ends of every edge are among `ids`.
   */
  ghost predicate EdgesAdmissible(edges: set<(int, int)>, ids: set<int>, ps: seq<(Option<int>, int)>)
  {
    && (forall k | 0 <= k < |ps| ::
          ps[k].0.Some? && (ps[k].0.value, ps[k].1) !in edges && ps[k].0.value in ids && ps[k].1 in ids)
    && (forall k, l | 0 <= k < l < |ps| :: ps[k] != ps[l])
  }

  function PairSet(ps: seq<(Option<int>, int)>): set<(int, int)>
  {
    set e | e in ps && e.0.Some? :: (e.0.value, e.1)
  }

  /** The first record of an admissible batch goes in, and leaves the rest admissible. */
  lemma RowsAdmissibleCons(t: Tables, recs: seq<Record>)
    requires IdsGiven(recs) && recs != []
    ensures IdsGiven(recs[1..])
    ensures RowsAdmissible(t, recs) <==>
      Step(t, InsertSynset(recs[0])).Ok? && RowsAdmissible(Step(t, InsertSynset(recs[0])).value, recs[1..])
  {
    var r0, rest := recs[0], recs[1..];
    assert forall i | 0 <= i < |rest| :: rest[i] == recs[i + 1];
    var step := Step(t, InsertSynset(r0));
    if step.Err? {
      assert !(recs[0].wnid.Some? && recs[0].synsetId.value !in t.synsets && recs[0].wnid.value !in t.wnids);
    } else {
      var t1 := step.value;
      if RowsAdmissible(t, recs) {
        forall i | 0 <= i < |rest|
          ensures rest[i].wnid.Some? && rest[i].synsetId.value !in t1.synsets && rest[i].wnid.value !in t1.wnids
        {
          assert recs[0].synsetId != recs[i + 1].synsetId && recs[0].wnid != recs[i + 1].wnid;
        }
        forall i, j | 0 <= i < j < |rest|
          ensures rest[i].synsetId != rest[j].synsetId && rest[i].wnid != rest[j].wnid
        {
          assert recs[i + 1].synsetId != recs[j + 1].synsetId && recs[i + 1].wnid != recs[j + 1].wnid;
        }
      }
      if RowsAdmissible(t1, rest) {
        forall i, j | 0 <= i < j < |recs|
          ensures recs[i].synsetId != recs[j].synsetId && recs[i].wnid != recs[j].wnid
        {
          if i == 0 {
            assert rest[j - 1].synsetId.value !in t1.synsets && rest[j - 1].wnid.value !in t1.wnids;
          } else {
            assert rest[i - 1].synsetId != rest[j - 1].synsetId && rest[i - 1].wnid != rest[j - 1].wnid;
          }
        }
        forall i | 0 <= i < |recs|
          ensures recs[i].wnid.Some? && recs[i].synsetId.value !in t.synsets && recs[i].wnid.value !in t.wnids
        {
          if i > 0 {
            assert rest[i - 1].synsetId.value !in t1.synsets && rest[i - 1].wnid.value !in t1.wnids;
          }
        }
      }
    }
  }

  lemma SetsCons(recs: seq<Record>)
    requires recs != [] && recs[0].synsetId.Some? && recs[0].wnid.Some?
    ensures IdSet(recs) == {recs[0].synsetId.value} + IdSet(recs[1..])
    ensures WnidSet(recs) == {recs[0].wnid.value} + WnidSet(recs[1..])
  {
    assert forall r | r in recs :: r == recs[0] || r in recs[1..];
  }

  /** An entity INSERT that succeeds adds the record's row under its id and its wnid, and nothing else. */
  lemma InsertSynsetEffect(t: Tables, rec: Record)
    requires rec.synsetId.Some?
    requires Step(t, InsertSynset(rec)).Ok?
    ensures rec.wnid.Some? && rec.synsetId.value !in t.synsets
    ensures Step(t, InsertSynset(rec)).value ==
      Tables(t.synsets[rec.synsetId.value := RowOf(rec)], t.wnids + {rec.wnid.value}, t.children)
  {
  }

  /** The entity phase commits exactly the admissible batches, adding one row per record. */
  lemma {:induction false} RowsPhase(t: Tables, recs: seq<Record>)
    requires IdsGiven(recs)
    ensures Run(t, SynsetStmts(recs)).Ok? <==> RowsAdmissible(t, recs)
    ensures Run(t, SynsetStmts(recs)).Ok? ==>
      var u := Run(t, SynsetStmts(recs)).value;
      && u.children == t.children
      && u.synsets.Keys == t.synsets.Keys + IdSet(recs)
      && u.wnids == t.wnids + WnidSet(recs)
      && (forall k | k in t.synsets :: u.synsets[k] == t.synsets[k])
      && (forall i | 0 <= i < |recs| :: recs[i].wnid.Some? && u.synsets[recs[i].synsetId.value] == RowOf(recs[i]))
    decreases |recs|
  {
    if recs == [] {
      assert IdSet(recs) == {} && WnidSet(recs) == {};
    } else {
      var r0, rest := recs[0], recs[1..];
      assert SynsetStmts(recs)[0] == InsertSynset(r0);
      assert SynsetStmts(recs)[1..] == SynsetStmts(rest);
      RowsAdmissibleCons(t, recs);
      var step := Step(t, InsertSynset(r0));
      if step.Ok? {
        var t1 := step.value;
        RowsPhase(t1, rest);
        InsertSynsetEffect(t, r0);
        SetsCons(recs);
        if Run(t, SynsetStmts(recs)).Ok? {
          var u := Run(t, SynsetStmts(recs)).value;
          assert u == Run(t1, SynsetStmts(rest)).value;
          forall i | 0 <= i < |recs|
            ensures recs[i].wnid.Some? && u.synsets[recs[i].synsetId.value] == RowOf(recs[i])
          {
            if i > 0 {
              assert recs[i] == rest[i - 1];
            }
          }
        }
      }
    }
  }

  /** The edge phase commits exactly the admissible edge lists, adding one edge per parameter. */
  lemma {:induction false} EdgesPhase(t: Tables, ps: seq<(Option<int>, int)>)
    ensures Run(t, ChildStmts(ps)).Ok? <==> EdgesAdmissible(t.children, t.synsets.Keys, ps)
    ensures Run(t, ChildStmts(ps)).Ok? ==>
      Run(t, ChildStmts(ps)).value == t.(children := t.children + PairSet(ps))
    decreases |ps|
  {
    if ps == [] {
      assert PairSet(ps) == {};
      assert t.(children := t.children + PairSet(ps)) == t;
    } else {
      var p0, rest := ps[0], ps[1..];
      assert ChildStmts(ps)[0] == InsertChild(p0.0, p0.1);
      assert ChildStmts(ps)[1..] == ChildStmts(rest);
      assert forall k | 0 <= k < |rest| :: rest[k] == ps[k + 1];
      var step := Step(t, InsertChild(p0.0, p0.1));
      if step.Err? {
        assert !EdgesAdmissible(t.children, t.synsets.Keys, ps) by {
          assert !(ps[0].0.Some? && (ps[0].0.value, ps[0].1) !in t.children
                   && ps[0].0.value in t.synsets.Keys && ps[0].1 in t.synsets.Keys);
        }
      } else {
        var t1 := step.value;
        var e0 := (p0.0.value, p0.1);
        assert t1 == t.(children := t.children + {e0});
        EdgesPhase(t1, rest);
        assert PairSet(ps) == {e0} + PairSet(rest) by {
          assert forall e | e in ps :: e == p0 || e in rest;
        }
        if EdgesAdmissible(t.children, t.synsets.Keys, ps) {
          forall k | 0 <= k < |rest|
            ensures rest[k].0.Some? && (rest[k].0.value, rest[k].1) !in t1.children
          {
            assert ps[0] != ps[k + 1];
          }
          forall k, l | 0 <= k < l < |rest| ensures rest[k] != rest[l] {
            assert ps[k + 1] != ps[l + 1];
          }
          assert EdgesAdmissible(t1.children, t1.synsets.Keys, rest);
        }
        if EdgesAdmissible(t1.children, t1.synsets.Keys, rest) {
          forall k, l | 0 <= k < l < |ps| ensures ps[k] != ps[l] {
            if k == 0 {
              assert (rest[l - 1].0.value, rest[l - 1].1) !in t1.children;
            } else {
              assert rest[k - 1] != rest[l - 1];
            }
          }
          forall k | 0 <= k < |ps|
            ensures ps[k].0.Some? && (ps[k].0.value, ps[k].1) !in t.children
                    && ps[k].0.value in t.synsets.Keys && ps[k].1 in t.synsets.Keys
          {
            if k > 0 {
              assert (rest[k - 1].0.value, rest[k - 1].1) !in t1.children;
            }
          }
        }
      }
    }
  }

  /**
    `insert_metadata` commits exactly when the batch satisfies every
    constraint, judged against the stored rows together with the whole
    batch's ids: entities go in first, so an edge may name any record of
    the batch, wherever it stands.
   */
  lemma CommitIff(t: Tables, recs: seq<Record>)
    requires IdsGiven(recs)
    ensures Run(t, Statements(recs)).Ok? <==>
      RowsAdmissible(t, recs) && EdgesAdmissible(t.children, t.synsets.Keys + IdSet(recs), ChildParams(recs))
    ensures Run(t, Statements(recs)).Ok? ==>
      var u := Run(t, Statements(recs)).value;
      && u.synsets.Keys == t.synsets.Keys + IdSet(recs)
      && u.wnids == t.wnids + WnidSet(recs)
      && u.children == t.children + PairSet(ChildParams(recs))
      && (forall k | k in t.synsets :: u.synsets[k] == t.synsets[k])
      && (forall i | 0 <= i < |recs| :: recs[i].wnid.Some? && u.synsets[recs[i].synsetId.value] == RowOf(recs[i]))
  {
    RunAppend(t, SynsetStmts(recs), ChildStmts(ChildParams(recs)));
    RowsPhase(t, recs);
    var rows := Run(t, SynsetStmts(recs));
    if rows.Ok? {
      EdgesPhase(rows.value, ChildParams(recs));
    }
  }

  /**
    Whether or not the records carry ids, the entity phase goes through only
    when every record has a wnid that is neither stored nor repeated.
   */
  lemma {:induction false} RowsNeedWnids(t: Tables, recs: seq<Record>)
    ensures Run(t, SynsetStmts(recs)).Ok? ==>
      && (forall i | 0 <= i < |recs| :: recs[i].wnid.Some? && recs[i].wnid.value !in t.wnids)
      && (forall i, j | 0 <= i < j < |recs| :: recs[i].wnid != recs[j].wnid)
    decreases |recs|
  {
    if recs != [] && Run(t, SynsetStmts(recs)).Ok? {
      var rest := recs[1..];
      assert SynsetStmts(recs)[0] == InsertSynset(recs[0]);
      assert SynsetStmts(recs)[1..] == SynsetStmts(rest);
      var t1 := Step(t, InsertSynset(recs[0])).value;
      assert Run(t1, SynsetStmts(rest)).Ok?;
      RowsNeedWnids(t1, rest);
      assert recs[0].wnid.value in t1.wnids;
      forall i | 0 < i < |recs| ensures recs[i].wnid.Some? && recs[i].wnid.value !in t.wnids {
        assert recs[i] == rest[i - 1];
      }
      forall i, j | 0 <= i < j < |recs| ensures recs[i].wnid != recs[j].wnid {
        assert recs[j] == rest[j - 1];
        if i > 0 {
          assert recs[i] == rest[i - 1];
        }
      }
    }
  }

  /** A batch in which two records share a wnid is rejected as a whole. */
  lemma DuplicateWnidAborts(t: Tables, recs: seq<Record>, i: int, j: int)
    requires 0 <= i < j < |recs| && recs[i].wnid == recs[j].wnid
    ensures Run(t, Statements(recs)).Err?
  {
    RunAppend(t, SynsetStmts(recs), ChildStmts(ChildParams(recs)));
    RowsNeedWnids(t, recs);
  }

  /** A batch with an edge to an id that is neither stored nor in the batch is rejected as a whole. */
  lemma DanglingChildAborts(t: Tables, recs: seq<Record>, i: int, c: int)
    requires IdsGiven(recs)
    requires 0 <= i < |recs| && c in recs[i].children
    requires c !in t.synsets && c !in IdSet(recs)
    ensures Run(t, Statements(recs)).Err?
  {
    CommitIff(t, recs);
    ChildParamsMembers(recs, recs[i].synsetId, c);
    var k :| 0 <= k < |ChildParams(recs)| && ChildParams(recs)[k] == (recs[i].synsetId, c);
  }

  /**
    Reading the committed store back: each record's row is stored under its
    id, and the children listed for that id are exactly the record's children.
   */
  lemma ReadBack(t: Tables, recs: seq<Record>, i: int)
    requires Consistent(t)
    requires IdsGiven(recs)
    requires 0 <= i < |recs|
    requires Run(t, Statements(recs)).Ok?
    ensures var u := Run(t, Statements(recs)).value;
      var p := recs[i].synsetId.value;
      && recs[i].wnid.Some? && p in u.synsets && u.synsets[p] == RowOf(recs[i])
      && (set e | e in u.children && e.0 == p :: e.1) == (set c | c in recs[i].children)
  {
    CommitIff(t, recs);
    var u := Run(t, Statements(recs)).value;
    var p := recs[i].synsetId.value;
    assert recs[i] in recs;
    assert p !in t.synsets;
    forall c ensures (p, c) in u.children <==> c in recs[i].children {
      ChildParamsMembers(recs, Some(p), c);
      if (p, c) in u.children {
        assert (p, c) !in t.children;
        assert (p, c) in PairSet(ChildParams(recs));
        var e :| e in ChildParams(recs) && e.0.Some? && (e.0.value, e.1) == (p, c);
        assert e == (Some(p), c);
        var j :| 0 <= j < |recs| && recs[j].synsetId == Some(p) && c in recs[j].children;
        assert j == i;
      }
      if c in recs[i].children {
        assert (Some(p), c) in ChildParams(recs);
        assert (p, c) in PairSet(ChildParams(recs));
      }
    }
    assert (set e | e in u.children && e.0 == p :: e.1) == (set c | c in recs[i].children) by {
      forall c | c in (set e | e in u.children && e.0 == p :: e.1) ensures c in recs[i].children {
        var e :| e in u.children && e.0 == p && e.1 == c;
        assert e == (p, c);
      }
      forall c | c in recs[i].children ensures c in (set e | e in u.children && e.0 == p :: e.1) {
        assert (p, c) in u.children;
      }
    }
  }

  /**
    `executemany`: the INSERTs one after another; the first violation stops
    the statement and is reported.
   */
  method ExecuteMany(t: Tables, stmts: seq<Stmt>) returns (r: Result<Tables, Violation>)
    ensures r == Run(t, stmts)
  {
    var cur := t;
    var k := 0;
    while k < |stmts|
      invariant 0 <= k <= |stmts|
      invariant Run(t, stmts) == Run(cur, stmts[k..])
    {
      assert stmts[k..][0] == stmts[k] && stmts[k..][1..] == stmts[k + 1..];
      var next := Step(cur, stmts[k]);
      if next.Err? {
        return Err(next.error);
      }
      cur := next.value;
      k := k + 1;
    }
    return Ok(cur);
  }

  /** The database file with the schema of `create_schema`. */
  class Database {
    var synsets: map<int, Row>
    var wnids: set<string>
    var children: set<(int, int)>

    ghost function Contents(): Tables
      reads this
    {
      Tables(synsets, wnids, children)
    }

    ghost predicate Valid()
      reads this
    {
      Consistent(Contents())
    }

    /** `create_schema` on a fresh file: both tables exist and are empty. */
    constructor ()
      ensures Valid()
      ensures Contents() == Tables(map[], {}, {})
    {
      synsets, wnids, children := map[], {}, {};
    }

    /**
      `insert_metadata`: all entity rows, then all edge rows, in one
      transaction. On a violation the transaction rolls back and the tables
      are as they were; otherwise they hold exactly the old rows and the new.
     */
    method InsertMetadata(records: seq<Record>) returns (failure: Option<Violation>)
      requires Valid()
      modifies this
      ensures Valid()
      ensures Run(old(Contents()), Statements(records)).Ok? ==>
        failure == None && Contents() == Run(old(Contents()), Statements(records)).value
      ensures Run(old(Contents()), Statements(records)).Err? ==>
        failure == Some(Run(old(Contents()), Statements(records)).error) && Contents() == old(Contents())
    {
      var before := Tables(synsets, wnids, children);
      RunAppend(before, SynsetStmts(records), ChildStmts(ChildParams(records)));
      var rows := ExecuteMany(before, SynsetStmts(records));
      if rows.Err? {
        return Some(rows.error);
      }
      var edges := ExecuteMany(rows.value, ChildStmts(ChildParams(records)));
      if edges.Err? {
        return Some(edges.error);
      }
      RunKeepsConsistent(before, Statements(records));
      synsets, wnids, children := edges.value.synsets, edges.value.wnids, edges.value.children;
      return None;
    }
  }
}
