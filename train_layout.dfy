/**
  `validate_imagenet_train`: reconciles the class folders found under the
  training root with the leaf classes of the metadata index, and optionally
  compares each folder's image count with the count the metadata records.

  The filesystem comes in as the entries of the root directory and a
  function giving the number of `*.JPEG` files in a class folder.
 */
module TrainLayout {
  import opened Taxonomy
  import opened TextOrder

  /** One entry of the training root. */
  datatype Entry = Entry(name: string, isDir: bool)

  /** A class folder whose image count differs from the metadata. */
  datatype Warning = CountMismatch(wnid: string, expected: int, actual: nat)

  datatype Verdict =
    | RootNotFound
    | MissingFolders(shown: seq<string>)
    | UnexpectedFolders(shown: seq<string>)
    | Validated(warnings: seq<Warning>)

  /** How many offending names an error message lists. */
  const PreviewLength := 5

  /** The wnids of the leaf classes: the folder names the layout must have. */
  function ExpectedWnids(meta: ImageNetMeta): (r: set<string>)
    reads meta
    requires meta.Valid()
    ensures forall w :: w in r <==> exists i | i in meta.synsets :: i <= LastLeafId && meta.synsets[i].wnid == w
    ensures Resolves(meta, r)
  {
    LeafPartition(meta);
    set i | i in meta.leafIds :: meta.synsets[i].wnid
  }

  /** The names of the sub-directories of the root. */
  function FoundWnids(entries: set<Entry>): (r: set<string>)
    ensures forall w :: w in r <==> Entry(w, true) in entries
  {
    set e | e in entries && e.isDir :: e.name
  }

  /** `sorted(names)[:5]`. */
  function Preview(names: set<string>): (r: seq<string>)
    ensures |r| == if |names| < PreviewLength then |names| else PreviewLength
    ensures forall k | 0 <= k < |r| :: r[k] in names
    ensures forall a, b | 0 <= a < b < |r| :: NotAfter(r[a], r[b]) && r[a] != r[b]
  {
    var sorted := Sorted(names);
    sorted[..if |sorted| < PreviewLength then |sorted| else PreviewLength]
  }

  /** The names a preview leaves out all come after every name it shows. */
  lemma PreviewSmallest(names: set<string>, x: string)
    requires x in names && x !in Preview(names)
    ensures |Preview(names)| == PreviewLength
    ensures forall k | 0 <= k < |Preview(names)| :: NotAfter(Preview(names)[k], x)
  {
    var sorted := Sorted(names);
    var j :| 0 <= j < |sorted| && sorted[j] == x;
    var r := Preview(names);
    assert j >= |r|;
    forall k | 0 <= k < |r| ensures NotAfter(r[k], x) {
      assert r[k] == sorted[k];
    }
  }

  /** Every name leads through `wnid_to_id` to a stored synset. */
  predicate Resolves(meta: ImageNetMeta, names: set<string>)
    reads meta
  {
    forall w | w in names :: w in meta.wnidToId && meta.wnidToId[w] in meta.synsets
  }

  /** The image count the metadata records for a wnid, looked up through `wnid_to_id`. */
  function ExpectedCount(meta: ImageNetMeta, w: string): int
    reads meta
    requires w in meta.wnidToId && meta.wnidToId[w] in meta.synsets
  {
    meta.synsets[meta.wnidToId[w]].numTrainImages
  }

  /** Some warning is about `w`. */
  predicate Reported(warnings: seq<Warning>, w: string)
  {
    exists k | 0 <= k < |warnings| :: warnings[k].wnid == w
  }

  /** Every warning is about a wnid of `names` whose count differs, with both counts as they are. */
  ghost predicate Genuine(meta: ImageNetMeta, imageCount: string -> nat, names: set<string>, warnings: seq<Warning>)
    reads meta
    requires Resolves(meta, names)
  {
    forall k | 0 <= k < |warnings| ::
      && warnings[k].wnid in names
      && warnings[k].expected == ExpectedCount(meta, warnings[k].wnid)
      && warnings[k].actual == imageCount(warnings[k].wnid)
      && warnings[k].actual != warnings[k].expected
  }

  /** The count check: each name's folder is counted once, and each differing count gives one warning. */
  method CountWarnings(meta: ImageNetMeta, imageCount: string -> nat, names: set<string>) returns (warnings: seq<Warning>)
    requires Resolves(meta, names)
    ensures Genuine(meta, imageCount, names, warnings)
    ensures forall w | w in names :: Reported(warnings, w) <==> imageCount(w) != ExpectedCount(meta, w)
    ensures forall a, b | 0 <= a < b < |warnings| :: warnings[a].wnid != warnings[b].wnid
  {
    warnings := [];
    var todo := names;
    while todo != {}
      invariant todo <= names
      invariant Genuine(meta, imageCount, names - todo, warnings)
      invariant forall w | w in names - todo :: Reported(warnings, w) <==> imageCount(w) != ExpectedCount(meta, w)
      invariant forall a, b | 0 <= a < b < |warnings| :: warnings[a].wnid != warnings[b].wnid
      decreases |todo|
    {
      var w :| w in todo;
      var id := meta.wnidToId[w];
      var want := meta.synsets[id].numTrainImages;
      var actual := imageCount(w);
      ghost var before := warnings;
      ghost var done := names - todo;
      assert !Reported(before, w);
      if actual != want {
        warnings := warnings + [CountMismatch(w, want, actual)];
      }
      todo := todo - {w};
      forall v | v in names - todo
        ensures Reported(warnings, v) <==> imageCount(v) != ExpectedCount(meta, v)
      {
        if v != w {
          assert v in done;
          if Reported(before, v) {
            var k :| 0 <= k < |before| && before[k].wnid == v;
            assert warnings[k] == before[k];
          }
          if Reported(warnings, v) {
            var k :| 0 <= k < |warnings| && warnings[k].wnid == v;
            assert k < |before| && before[k].wnid == v;
          }
        } else if actual != want {
          assert warnings[|before|].wnid == w;
        }
      }
    }
  }

  /**
    The root must exist; then every expected folder must be there, then no
    other folder may be; only then, when asked, are the image counts
    compared, and a differing count is a warning, never a failure.
   */
  method ValidateTrain(rootExists: bool, entries: set<Entry>, imageCount: string -> nat, meta: ImageNetMeta, checkCounts: bool)
    returns (r: Verdict)
    requires meta.Valid()
    ensures !rootExists ==> r == RootNotFound
    ensures rootExists && ExpectedWnids(meta) - FoundWnids(entries) != {} ==>
      r == MissingFolders(Preview(ExpectedWnids(meta) - FoundWnids(entries)))
    ensures rootExists && ExpectedWnids(meta) - FoundWnids(entries) == {} && FoundWnids(entries) - ExpectedWnids(meta) != {} ==>
      r == UnexpectedFolders(Preview(FoundWnids(entries) - ExpectedWnids(meta)))
    ensures r.Validated? <==> rootExists && FoundWnids(entries) == ExpectedWnids(meta)
    ensures r.Validated? && !checkCounts ==> r.warnings == []
    ensures r.Validated? && checkCounts ==>
      && Genuine(meta, imageCount, ExpectedWnids(meta), r.warnings)
      && (forall w | w in ExpectedWnids(meta) :: Reported(r.warnings, w) <==> imageCount(w) != ExpectedCount(meta, w))
      && (forall a, b | 0 <= a < b < |r.warnings| :: r.warnings[a].wnid != r.warnings[b].wnid)
  {
    if !rootExists {
      return RootNotFound;
    }
    var expected := ExpectedWnids(meta);
    var found := FoundWnids(entries);
    var missing := expected - found;
    var extra := found - expected;
    if missing != {} {
      return MissingFolders(Preview(missing));
    }
    if extra != {} {
      return UnexpectedFolders(Preview(extra));
    }
    if !checkCounts {
      return Validated([]);
    }
    var warnings := CountWarnings(meta, imageCount, expected);
    return Validated(warnings);
  }
}
