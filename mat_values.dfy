/**
  Field values of one MATLAB struct as the matrix decoder hands them over,
  and the conversions Python's int() and str() apply to them.

  A field is absent (Python None), a bare scalar, or an array of scalars;
  a one-element array stands for its only element once it is squeezed.
 */
module MatValues {
  import opened Wrappers

  type byte = x: int | 0 <= x < 256

  /** One element: an integer, a text string or a byte string. */
  datatype Scalar = IntS(n: int) | TextS(t: string) | BytesS(b: seq<byte>)

  datatype Raw = Absent | Atom(v: Scalar) | Arr(elems: seq<Scalar>)

  /**
    Behaviour of foreign libraries the model does not spell out: UTF-8
    decoding of bytes, Python's repr of a bytes object, and numpy's text
    rendering of an array.
   */
  datatype Library = Library(
    utf8: seq<byte> -> string,
    bytesRepr: seq<byte> -> string,
    arrayRepr: seq<Scalar> -> string)

  /** The fields of one entry of the `synsets` struct array of meta.mat. */
  datatype RawSynset = RawSynset(
    id: Raw,
    wnid: Raw,
    words: Raw,
    gloss: Raw,
    numChildren: Raw,
    children: Raw,
    wordnetHeight: Raw,
    numTrainImages: Raw)

  /** int() was applied to something that is not one integer. */
  datatype DecodeError = NotOneInteger

  /** The single element a field stands for once squeezed, if there is one. */
  function Squeezed(v: Raw): (r: Option<Scalar>)
    ensures r.None? <==> v.Absent? || (v.Arr? && |v.elems| != 1)
    ensures r.Some? ==> v == Atom(r.value) || v == Arr([r.value])
  {
    match v
    case Absent => None
    case Atom(x) => Some(x)
    case Arr(es) => if |es| == 1 then Some(es[0]) else None
  }

  /** Python's int() of one element. */
  function IntOfScalar(x: Scalar): Result<int, DecodeError>
  {
    if x.IntS? then Ok(x.n) else Err(NotOneInteger)
  }

  /** int() of every element of an array, in order; the first failure aborts. */
  function IntsOf(es: seq<Scalar>): (r: Result<seq<int>, DecodeError>)
    ensures r.Ok? <==> forall k | 0 <= k < |es| :: es[k].IntS?
    ensures r.Ok? ==> |r.value| == |es| && forall k | 0 <= k < |es| :: r.value[k] == es[k].n
  {
    if es == [] then Ok([])
    else
      match IntOfScalar(es[0])
      case Err(e) => Err(e)
      case Ok(n) =>
        match IntsOf(es[1..])
        case Err(e) => Err(e)
        case Ok(ns) => Ok([n] + ns)
  }

  /**
    The `children` field as a list of ids: absent is the empty list, a bare
    scalar a one-element list, and an array keeps its element order.
   */
  function ChildIds(v: Raw): (r: Result<seq<int>, DecodeError>)
    ensures v.Absent? ==> r == Ok([])
    ensures v.Atom? ==> (r.Ok? <==> v.v.IntS?) && (r.Ok? ==> r.value == [v.v.n])
    ensures v.Arr? ==> (r.Ok? <==> forall k | 0 <= k < |v.elems| :: v.elems[k].IntS?)
    ensures v.Arr? && r.Ok? ==>
      |r.value| == |v.elems| && forall k | 0 <= k < |v.elems| :: r.value[k] == v.elems[k].n
  {
    match v
    case Absent => Ok([])
    case Atom(x) => if x.IntS? then Ok([x.n]) else Err(NotOneInteger)
    case Arr(es) => IntsOf(es)
  }

  /** Python's strict int() of a whole field, as imagenet_meta.py applies it. */
  function IntOf(v: Raw): (r: Result<int, DecodeError>)
    ensures r.Ok? <==> Squeezed(v).Some? && Squeezed(v).value.IntS?
    ensures r.Ok? ==> r.value == Squeezed(v).value.n
    ensures v.Absent? || v == Arr([]) ==> r.Err?
  {
    match Squeezed(v)
    case None => Err(NotOneInteger)
    case Some(x) => IntOfScalar(x)
  }

  function DigitChar(d: nat): (c: char)
    requires d < 10
    ensures '0' <= c <= '9' && c as int - '0' as int == d
  {
    "0123456789"[d]
  }

  /** The decimal digits of a natural number, most significant first. */
  function Digits(n: nat): (s: string)
    ensures |s| > 0
    ensures forall k | 0 <= k < |s| :: '0' <= s[k] <= '9'
    ensures |s| > 1 ==> s[0] != '0'
  {
    if n < 10 then [DigitChar(n)] else Digits(n / 10) + [DigitChar(n % 10)]
  }

  /** The number a string of decimal digits denotes. */
  function DigitsValue(s: string): nat
    requires forall k | 0 <= k < |s| :: '0' <= s[k] <= '9'
  {
    if s == [] then 0
    else DigitsValue(s[..|s| - 1]) * 10 + (s[|s| - 1] as int - '0' as int)
  }

  /** Python's str() of an int. */
  function Decimal(n: int): (s: string)
    ensures s != [] && (s[0] == '-' <==> n < 0)
    ensures n >= 0 ==> (forall k | 0 <= k < |s| :: '0' <= s[k] <= '9') && DigitsValue(s) == n
    ensures n < 0 ==> var d := s[1..];
      (forall k | 0 <= k < |d| :: '0' <= d[k] <= '9') && DigitsValue(d) == -n
    ensures var d := if n < 0 then s[1..] else s; d != [] && (|d| > 1 ==> d[0] != '0')
  {
    if n < 0 then
      DigitsRoundTrip(-n);
      var s := "-" + Digits(-n);
      assert s[1..] == Digits(-n);
      s
    else
      DigitsRoundTrip(n);
      Digits(n)
  }

  /** str() of an int loses nothing: its digits denote the number again. */
  lemma {:induction false} DigitsRoundTrip(n: nat)
    ensures DigitsValue(Digits(n)) == n
  {
    if n >= 10 {
      var s := Digits(n);
      assert s[..|s| - 1] == Digits(n / 10);
      DigitsRoundTrip(n / 10);
    }
  }
}
