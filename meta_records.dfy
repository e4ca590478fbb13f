/**
  Normalisation of the decoded devkit records into canonical synset
  records, and the headword derivation (imagenet_meta_to_sqlite.py).
 */
module MetaRecords {
  import opened Wrappers
  import opened MatValues

  /** `_as_int`: absent or empty is None, one value is its integer, several are an error. */
  function AsInt(v: Raw): (r: Result<Option<int>, DecodeError>)
    ensures v.Absent? || v == Arr([]) ==> r == Ok(None)
    ensures Squeezed(v).Some? ==>
      r == if Squeezed(v).value.IntS? then Ok(Some(Squeezed(v).value.n)) else Err(NotOneInteger)
    ensures v.Arr? && |v.elems| > 1 ==> r.Err?
  {
    match v
    case Absent => Ok(None)
    case Atom(x) => if x.IntS? then Ok(Some(x.n)) else Err(NotOneInteger)
    case Arr(es) =>
      if |es| == 0 then Ok(None)
      else if |es| == 1 && es[0].IntS? then Ok(Some(es[0].n))
      else Err(NotOneInteger)
  }

  /** str() of one element, with bytes decoded as UTF-8 first. */
  function ScalarText(x: Scalar, lib: Library): string
  {
    match x
    case IntS(n) => Decimal(n)
    case TextS(t) => t
    case BytesS(b) => lib.utf8(b)
  }

  /**
    `_as_str`: absent or empty is None; a bytes value is decoded as UTF-8;
    anything else goes through str(). A one-element array is squeezed to a
    0-d array, which is not a bytes instance, so its bytes are rendered by
    str() rather than decoded.
   */
  function AsStr(v: Raw, lib: Library): (r: Option<string>)
    ensures r.None? <==> v.Absent? || v == Arr([])
    ensures v.Atom? && v.v.BytesS? ==> r == Some(lib.utf8(v.v.b))
    ensures v.Arr? && |v.elems| == 1 && v.elems[0].BytesS? ==> r == Some(lib.bytesRepr(v.elems[0].b))
    ensures Squeezed(v).Some? && Squeezed(v).value.TextS? ==> r == Some(Squeezed(v).value.t)
    ensures Squeezed(v).Some? && Squeezed(v).value.IntS? ==> r == Some(Decimal(Squeezed(v).value.n))
    ensures v.Arr? && |v.elems| > 1 ==> r == Some(lib.arrayRepr(v.elems))
  {
    match v
    case Absent => None
    case Atom(x) => Some(ScalarText(x, lib))
    case Arr(es) =>
      if |es| == 0 then None
      else if |es| == 1 then
        (if es[0].BytesS? then Some(lib.bytesRepr(es[0].b)) else Some(ScalarText(es[0], lib)))
      else Some(lib.arrayRepr(es))
  }

  /** Python's str.isspace() for one character: the characters str.strip() removes. */
  predicate IsSpace(c: char)
  {
    || ('\t' <= c <= '\r') || ('\U{1c}' <= c <= '\U{1f}') || c == ' '
    || c == '\U{85}' || c == '\U{a0}' || c == '\U{1680}'
    || ('\U{2000}' <= c <= '\U{200a}') || c == '\U{2028}' || c == '\U{2029}'
    || c == '\U{202f}' || c == '\U{205f}' || c == '\U{3000}'
  }

  /** Position of the first ',' in `s`, or |s| when there is none. */
  function CommaIndex(s: string): (k: nat)
    ensures k <= |s|
    ensures k < |s| ==> s[k] == ','
    ensures forall i | 0 <= i < k :: s[i] != ','
  {
    if s == [] then 0
    else if s[0] == ',' then 0
    else 1 + CommaIndex(s[1..])
  }

  /** `s.split(",")[0]`: everything before the first comma. */
  function FirstSegment(s: string): (t: string)
    ensures ',' !in t
    ensures t <= s
    ensures |t| < |s| ==> s[|t|] == ','
  {
    s[..CommaIndex(s)]
  }

  /** Number of whitespace characters at the front of `s`. */
  function LeadingSpace(s: string): (k: nat)
    ensures k <= |s|
    ensures forall i | 0 <= i < k :: IsSpace(s[i])
    ensures k < |s| ==> !IsSpace(s[k])
  {
    if s == [] || !IsSpace(s[0]) then 0 else 1 + LeadingSpace(s[1..])
  }

  /** Number of whitespace characters at the back of `s`. */
  function TrailingSpace(s: string): (k: nat)
    ensures k <= |s|
    ensures forall i | |s| - k <= i < |s| :: IsSpace(s[i])
    ensures k < |s| ==> !IsSpace(s[|s| - 1 - k])
  {
    if s == [] || !IsSpace(s[|s| - 1]) then 0 else 1 + TrailingSpace(s[..|s| - 1])
  }

  /** `s.strip()`: `s` without surrounding whitespace. */
  function Strip(s: string): (t: string)
    ensures LeadingSpace(s) + |t| <= |s| && t == s[LeadingSpace(s)..LeadingSpace(s) + |t|]
    ensures t == [] <==> forall i | 0 <= i < |s| :: IsSpace(s[i])
    ensures t != [] ==> !IsSpace(t[0]) && !IsSpace(t[|t| - 1])
    ensures forall i | LeadingSpace(s) + |t| <= i < |s| :: IsSpace(s[i])
  {
    var u := s[LeadingSpace(s)..];
    u[..|u| - TrailingSpace(u)]
  }

  /** `s.replace(" ", "_")`. */
  function Underscored(s: string): (t: string)
    ensures |t| == |s| && ' ' !in t
    ensures forall i | 0 <= i < |s| && s[i] != ' ' :: t[i] == s[i]
    ensures forall i | 0 <= i < |s| && s[i] == ' ' :: t[i] == '_'
  {
    seq(|s|, i requires 0 <= i < |s| => if s[i] == ' ' then '_' else s[i])
  }

  /**
    `make_headword`: the first comma-separated lemma of `words`, trimmed,
    with its spaces turned into underscores; None when `words` is None or
    empty, or when that lemma is blank.
   */
  function MakeHeadword(words: Option<string>): (r: Option<string>)
    ensures words.None? || words == Some("") ==> r.None?
    ensures words.Some? && words.value != "" ==>
      (r.None? <==> forall i | 0 <= i < CommaIndex(words.value) :: IsSpace(words.value[i]))
    ensures r.Some? ==> var first := Strip(FirstSegment(words.value));
      && r.value != []
      && ',' !in r.value && ' ' !in r.value
      && |r.value| == |first|
      && forall i | 0 <= i < |first| :: r.value[i] == if first[i] == ' ' then '_' else first[i]
  {
    if words.None? || words.value == "" then None
    else
      var first := Strip(FirstSegment(words.value));
      if first == "" then None else Some(Underscored(first))
  }

  /** Text without surrounding whitespace is left alone by strip(). */
  lemma StripKeepsTrimmed(s: string)
    requires s != [] && !IsSpace(s[0]) && !IsSpace(s[|s| - 1])
    ensures Strip(s) == s
  {
    assert LeadingSpace(s) == 0;
    assert TrailingSpace(s) == 0;
  }

  /** The first segment ends at the first comma. */
  lemma FirstSegmentUpTo(s: string, k: nat)
    requires k < |s| && s[k] == ','
    requires forall i | 0 <= i < k :: s[i] != ','
    ensures FirstSegment(s) == s[..k]
  {
    assert CommaIndex(s) == k;
  }

  /** The example of the module documentation. */
  lemma HeadwordOfEgyptianCat(words: string)
    requires words == "Egyptian cat, Felis catus"
    ensures MakeHeadword(Some(words)) == Some("Egyptian_cat")
  {
    var first := "Egyptian cat";
    StripKeepsTrimmed(first);
    assert Underscored(first) == "Egyptian_cat";
    FirstSegmentUpTo(words, 12);
    assert words[..12] == first;
  }

  /** A blank first lemma gives no headword, whatever follows the comma. */
  lemma HeadwordOfBlankFirstLemma()
    ensures MakeHeadword(Some("   ,foo")) == None
  {
    var w := "   ,foo";
    assert w[3] == ',';
  }

  /** One canonical record, the dictionary `load_meta_from_tar` appends per synset. */
  datatype Record = Record(
    synsetId: Option<int>,
    wnid: Option<string>,
    headword: Option<string>,
    words: Option<string>,
    gloss: Option<string>,
    numChildren: Option<int>,
    children: seq<int>,
    wordnetHeight: Option<int>,
    numTrainImages: Option<int>)

  /** The record built from one decoded synset, with its headword derived from its words. */
  function ToRecord(s: RawSynset, lib: Library): (r: Result<Record, DecodeError>)
    ensures r.Ok? <==>
      && AsInt(s.id).Ok? && AsInt(s.numChildren).Ok? && AsInt(s.wordnetHeight).Ok?
      && AsInt(s.numTrainImages).Ok? && ChildIds(s.children).Ok?
    ensures r.Ok? ==>
      && r.value.synsetId == AsInt(s.id).value
      && r.value.wnid == AsStr(s.wnid, lib)
      && r.value.words == AsStr(s.words, lib)
      && r.value.headword == MakeHeadword(r.value.words)
      && r.value.gloss == AsStr(s.gloss, lib)
      && r.value.numChildren == AsInt(s.numChildren).value
      && r.value.children == ChildIds(s.children).value
      && r.value.wordnetHeight == AsInt(s.wordnetHeight).value
      && r.value.numTrainImages == AsInt(s.numTrainImages).value
  {
    match (AsInt(s.id), AsInt(s.numChildren), AsInt(s.wordnetHeight), AsInt(s.numTrainImages), ChildIds(s.children))
    case (Ok(id), Ok(nc), Ok(h), Ok(nt), Ok(cs)) =>
      var words := AsStr(s.words, lib);
      Ok(Record(id, AsStr(s.wnid, lib), MakeHeadword(words), words, AsStr(s.gloss, lib), nc, cs, h, nt))
    case _ => Err(NotOneInteger)
  }

  /**
    The record-building loop of `load_meta_from_tar`: one record per
    decoded synset, in source order; a malformed synset aborts the load.
   */
  method LoadRecords(raws: seq<RawSynset>, lib: Library) returns (r: Result<seq<Record>, DecodeError>)
    ensures r.Ok? <==> forall k | 0 <= k < |raws| :: ToRecord(raws[k], lib).Ok?
    ensures r.Ok? ==> |r.value| == |raws|
    ensures r.Ok? ==> forall k | 0 <= k < |raws| :: r.value[k] == ToRecord(raws[k], lib).value
    ensures r.Ok? ==> forall k | 0 <= k < |raws| ::
      && r.value[k].headword == MakeHeadword(r.value[k].words)
      && (raws[k].children.Absent? ==> r.value[k].children == [])
      && (raws[k].children.Arr? ==>
            |r.value[k].children| == |raws[k].children.elems|
            && forall j | 0 <= j < |r.value[k].children| :: r.value[k].children[j] == raws[k].children.elems[j].n)
  {
    var records: seq<Record> := [];
    for k := 0 to |raws|
      invariant |records| == k
      invariant forall j | 0 <= j < k :: ToRecord(raws[j], lib).Ok? && records[j] == ToRecord(raws[j], lib).value
    {
      var rec := ToRecord(raws[k], lib);
      if rec.Err? {
        return Err(rec.error);
      }
      records := records + [rec.value];
    }
    return Ok(records);
  }
}
