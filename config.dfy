/** The comma-list validators of the application settings: `ALLOWED_ORIGINS`,
    `CORS_ALLOW_METHODS` and `CORS_ALLOW_HEADERS` may be given as one
    comma-separated string (for instance as a keyword argument of the
    settings constructor), which each validator turns into the list of its
    trimmed pieces before the field's `List[str]` type is checked. */
module Config {
  import opened PyStr

  /** The raw value a `pre=True` validator receives: whatever value the
      settings were given for the field, before any type coercion. */
  datatype PyObject =
    | NoneValue
    | Bool(b: bool)
    | Int(i: int)
    | Str(s: string)
    | List(items: seq<PyObject>)

  /** A Python list of strings. */
  function StrList(ss: seq<string>): (r: seq<PyObject>)
    ensures |r| == |ss|
    ensures forall i :: 0 <= i < |r| ==> r[i] == Str(ss[i])
  {
    seq(|ss|, i requires 0 <= i < |ss| => Str(ss[i]))
  }

  /** `xs` holds, in order, each `,`-separated segment of `s` with its
      surrounding whitespace cut off. */
  ghost predicate IsTrimmedSegments(s: string, xs: seq<string>) {
    var segments := Split(s, ',');
    |xs| == |segments|
    && forall i :: 0 <= i < |xs| ==> IsStripped(xs[i]) && IsPaddedBy(segments[i], xs[i])
  }

  /** Split `s` at every `,` and strip each piece, keeping their order: what
      every validator does to a string. */
  function ParseCommaList(s: string): (r: seq<string>)
    ensures |r| == Count(s, ',') + 1
    ensures forall i :: 0 <= i < |r| ==> ',' !in r[i]
    ensures IsTrimmedSegments(s, r)
  {
    var segments := Split(s, ',');
    var r := seq(|segments|, i requires 0 <= i < |segments| => Strip(segments[i]));
    assert forall i :: 0 <= i < |r| ==> ',' !in r[i] by {
      forall i | 0 <= i < |r| ensures ',' !in r[i] {
        StripAddsNothing(segments[i], ',');
      }
    }
    r
  }

  /** The trimmed segments of a string are determined by it: any list that
      meets the specification is the parser's result. */
  lemma ParseCommaListUnique(s: string, xs: seq<string>)
    requires IsTrimmedSegments(s, xs)
    ensures xs == ParseCommaList(s)
  {
    var segments := Split(s, ',');
    forall i | 0 <= i < |xs| ensures xs[i] == Strip(segments[i]) {
      var k: nat :| PaddedAt(segments[i], xs[i], k);
      StripUnique(segments[i], xs[i], k);
    }
  }

  /** The pieces on either side of a comma are parsed independently and
      kept in order. */
  lemma ParseAround(a: string, b: string)
    ensures ParseCommaList(a + "," + b) == ParseCommaList(a) + ParseCommaList(b)
  {
    SplitAround(a, b, ',');
  }

  /** Empty segments are kept: the empty string is one empty entry, and a
      trailing comma adds one empty entry at the end. */
  lemma ParseKeepsEmpty(s: string)
    ensures ParseCommaList("") == [""]
    ensures ParseCommaList(s + ",") == ParseCommaList(s) + [""]
  {
    assert s + "," == s + "," + "";
    ParseAround(s, "");
  }

  /** A string with no comma is one entry: the string, stripped. */
  lemma ParseSingle(s: string)
    requires ',' !in s
    ensures ParseCommaList(s) == [Strip(s)]
  {
    SplitNoSeparator(s, ',');
  }

  /** No `,`-separated segment of `s` has whitespace at either end. */
  predicate SegmentsStripped(s: string) {
    var segments := Split(s, ',');
    forall i :: 0 <= i < |segments| ==> IsStripped(segments[i])
  }

  /** When every segment is already trimmed, parsing only splits. */
  lemma ParseStrippedSegments(s: string)
    requires SegmentsStripped(s)
    ensures ParseCommaList(s) == Split(s, ',')
  {
    var segments := Split(s, ',');
    forall i | 0 <= i < |segments| ensures Strip(segments[i]) == segments[i] {
      StripFixedPoint(segments[i]);
    }
  }

  /** Joining the result with `,` gives back the input exactly when no
      segment of the input has whitespace at either end. */
  lemma JoinRoundTrip(s: string)
    ensures Join(ParseCommaList(s), ',') == s <==> SegmentsStripped(s)
  {
    var r := ParseCommaList(s);
    if Join(r, ',') == s {
      SplitUnique(s, ',', r);
    } else if SegmentsStripped(s) {
      ParseStrippedSegments(s);
    }
  }

  /** A list of trimmed, comma-free entries written out joined by `,` is read
      back as the same list. */
  lemma ParseJoin(xs: seq<string>)
    requires |xs| > 0
    requires forall i :: 0 <= i < |xs| ==> ',' !in xs[i] && IsStripped(xs[i])
    ensures ParseCommaList(Join(xs, ',')) == xs
  {
    var s := Join(xs, ',');
    SplitUnique(s, ',', xs);
    forall i | 0 <= i < |xs| ensures Strip(xs[i]) == xs[i] {
      StripFixedPoint(xs[i]);
    }
  }

  /** Parsing what was parsed and re-joined changes nothing. */
  lemma ParseJoinIdempotent(s: string)
    ensures ParseCommaList(Join(ParseCommaList(s), ',')) == ParseCommaList(s)
  {
    ParseJoin(ParseCommaList(s));
  }

  /** The strings held by a list of Python strings. */
  function StrValues(items: seq<PyObject>): (ss: seq<string>)
    requires forall i :: 0 <= i < |items| ==> items[i].Str?
    ensures |ss| == |items|
    ensures StrList(ss) == items
  {
    seq(|items|, i requires 0 <= i < |items| => items[i].s)
  }

  /** What a comma-list validator promises: a string becomes the list of its
      trimmed segments, anything else is passed on unchanged. */
  ghost predicate ValidatesCommaList(v: PyObject, r: PyObject) {
    match v
    case Str(s) =>
      r.List? && (forall i :: 0 <= i < |r.items| ==> r.items[i].Str?)
      && IsTrimmedSegments(s, StrValues(r.items))
    case _ => r == v
  }

  /** Validator of `ALLOWED_ORIGINS`. */
  function ParseCorsOrigins(v: PyObject): (r: PyObject)
    ensures ValidatesCommaList(v, r)
    ensures !r.Str?
  {
    match v
    case Str(s) =>
      var origins := ParseCommaList(s);
      List(StrList(origins))
    case _ => v
  }

  /** Validator of `CORS_ALLOW_METHODS`. */
  function ParseCorsMethods(v: PyObject): (r: PyObject)
    ensures ValidatesCommaList(v, r)
    ensures !r.Str?
  {
    match v
    case Str(s) =>
      var methods := ParseCommaList(s);
      List(StrList(methods))
    case _ => v
  }

  /** Validator of `CORS_ALLOW_HEADERS`. */
  function ParseCorsHeaders(v: PyObject): (r: PyObject)
    ensures ValidatesCommaList(v, r)
    ensures !r.Str?
  {
    match v
    case Str(s) =>
      var headers := ParseCommaList(s);
      List(StrList(headers))
    case _ => v
  }

  /** Only one result meets the validator specification, so the three
      validators compute the same function. */
  lemma ValidatorsAgree(v: PyObject)
    ensures ParseCorsOrigins(v) == ParseCorsMethods(v) == ParseCorsHeaders(v)
  {
    if v.Str? {
      var r := ParseCorsOrigins(v);
      ValidatesCommaListUnique(v, r, ParseCorsMethods(v));
      ValidatesCommaListUnique(v, r, ParseCorsHeaders(v));
    }
  }

  /** A validator's result is determined by its input. */
  lemma ValidatesCommaListUnique(v: PyObject, r1: PyObject, r2: PyObject)
    requires ValidatesCommaList(v, r1) && ValidatesCommaList(v, r2)
    ensures r1 == r2
  {
    if v.Str? {
      ParseCommaListUnique(v.s, StrValues(r1.items));
      ParseCommaListUnique(v.s, StrValues(r2.items));
    }
  }

  /** Running a validator on its own output changes nothing. */
  lemma ValidatorIdempotent(v: PyObject)
    ensures ParseCorsOrigins(ParseCorsOrigins(v)) == ParseCorsOrigins(v)
    ensures ParseCorsMethods(ParseCorsMethods(v)) == ParseCorsMethods(v)
    ensures ParseCorsHeaders(ParseCorsHeaders(v)) == ParseCorsHeaders(v)
  {
  }

  /** The entries of the default `ALLOWED_ORIGINS`. */
  const DefaultOrigins: seq<string> :=
    ["http://localhost:3000", "http://localhost:8000", "https://localhost:3000"]

  /** Default of `ALLOWED_ORIGINS`. */
  const DefaultAllowedOrigins: PyObject := List(StrList(DefaultOrigins))

  /** Default of `CORS_ALLOW_METHODS` and of `CORS_ALLOW_HEADERS`. */
  const DefaultAllowAny: PyObject := List([Str("*")])

  /** The defaults are lists, so the validator functions return them as they
      are. */
  lemma DefaultsPassThrough()
    ensures ParseCorsOrigins(DefaultAllowedOrigins) == DefaultAllowedOrigins
    ensures ParseCorsMethods(DefaultAllowAny) == DefaultAllowAny
    ensures ParseCorsHeaders(DefaultAllowAny) == DefaultAllowAny
  {
  }

  /** The default origins written as one comma-separated string are read back
      as the default list. */
  lemma DefaultOriginsFromString()
    ensures ParseCorsOrigins(Str("http://localhost:3000" + "," + "http://localhost:8000" + ","
                                 + "https://localhost:3000"))
         == DefaultAllowedOrigins
  {
    DefaultOriginsJoined();
    ParseJoin(DefaultOrigins);
  }

  /** The default origins are trimmed, comma-free, and join to the string
      above. */
  lemma DefaultOriginsJoined()
    ensures |DefaultOrigins| > 0
    ensures forall i :: 0 <= i < |DefaultOrigins| ==> ',' !in DefaultOrigins[i] && IsStripped(DefaultOrigins[i])
    ensures Join(DefaultOrigins, ',')
         == "http://localhost:3000" + "," + "http://localhost:8000" + "," + "https://localhost:3000"
  {
    var a, b, c := "http://localhost:3000", "http://localhost:8000", "https://localhost:3000";
    assert DefaultOrigins[1..] == [b, c] && [b, c][1..] == [c];
    assert Join([b, c], ',') == b + [','] + c;
  }
}
