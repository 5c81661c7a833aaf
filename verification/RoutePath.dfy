/**
  Route patterns: how the path of a registered route is split and parsed into
  segments, how a pattern is printed, and how the path of a request is split.
 */
module RoutePath {
  import opened Wrappers

  datatype PathSegment =
    | Literal(text: string)
    | VarnameSegment(name: string)
    | VarnameWildcard(name: string)

  type Pattern = seq<PathSegment>

  datatype PathError =
    | NoLeadingSlash
    | EmptySegment
    | NoLeadingBrace
    | NoTrailingBrace
    | EmptyVariableName
    | UnsupportedRegex

  // ---------------------------------------------------------------- splitting

  function Split(s: string, c: char): (parts: seq<string>)
    ensures parts != []
    ensures forall i :: 0 <= i < |parts| ==> c !in parts[i]
  {
    if s == "" then [""]
    else if s[0] == c then [""] + Split(s[1..], c)
    else
      var parts := Split(s[1..], c);
      [[s[0]] + parts[0]] + parts[1..]
  }

  function Join(parts: seq<string>, c: char): string {
    if parts == [] then ""
    else if |parts| == 1 then parts[0]
    else parts[0] + [c] + Join(parts[1..], c)
  }

  lemma {:induction false} JoinSplit(s: string, c: char)
    ensures Join(Split(s, c), c) == s
  {
    if s != "" {
      JoinSplit(s[1..], c);
      var rest := Split(s[1..], c);
      assert s == [s[0]] + s[1..];
      if s[0] == c {
        assert ([""] + rest)[1..] == rest;
      } else {
        var parts := [[s[0]] + rest[0]] + rest[1..];
        assert parts[1..] == rest[1..];
        assert |rest| > 1 ==> Join(rest, c) == rest[0] + [c] + Join(rest[1..], c);
      }
    }
  }

  lemma {:induction false} SplitPrefix(a: string, s: string, c: char)
    requires c !in a
    ensures Split(a + s, c) == [a + Split(s, c)[0]] + Split(s, c)[1..]
  {
    if a == "" {
      assert a + s == s;
      assert a + Split(s, c)[0] == Split(s, c)[0];
      assert Split(s, c) == [Split(s, c)[0]] + Split(s, c)[1..];
    } else {
      assert (a + s)[1..] == a[1..] + s && (a + s)[0] == a[0];
      assert a[0] in a;
      assert forall x :: x in a[1..] ==> x in a;
      SplitPrefix(a[1..], s, c);
      assert [a[0]] + (a[1..] + Split(s, c)[0]) == a + Split(s, c)[0];
    }
  }

  lemma {:induction false} SplitJoin(parts: seq<string>, c: char)
    requires parts != [] && forall i :: 0 <= i < |parts| ==> c !in parts[i]
    ensures Split(Join(parts, c), c) == parts
  {
    if |parts| == 1 {
      SplitPrefix(parts[0], "", c);
      assert parts[0] + "" == parts[0];
    } else {
      var rest := parts[1..];
      SplitJoin(rest, c);
      var tail := [c] + Join(rest, c);
      assert tail[1..] == Join(rest, c);
      assert Split(tail, c) == [""] + rest;
      SplitPrefix(parts[0], tail, c);
      assert parts[0] + tail == Join(parts, c);
      assert parts[0] + "" == parts[0];
      assert [parts[0]] + rest == parts;
    }
  }

  // ------------------------------------------------------- parsing one segment

  function IndexOf(s: string, c: char): (r: Option<nat>)
    ensures r.None? <==> c !in s
    ensures r.Some? ==> r.value < |s| && s[r.value] == c && c !in s[..r.value]
  {
    if s == "" then None
    else if s[0] == c then Some(0)
    else match IndexOf(s[1..], c)
      case None => None
      case Some(i) =>
        assert s[..i + 1] == [s[0]] + s[1..][..i];
        Some(i + 1)
  }

  lemma {:induction false} FirstIndexOf(a: string, c: char, b: string)
    requires c !in a
    ensures IndexOf(a + [c] + b, c) == Some(|a|)
  {
    if a != "" {
      assert (a + [c] + b)[1..] == a[1..] + [c] + b;
      assert a[0] in a && forall x :: x in a[1..] ==> x in a;
      FirstIndexOf(a[1..], c, b);
    }
  }

  /** Parses one segment of a route path: a literal, or a variable in braces. */
  function ParseSegment(segment: string): Result<PathSegment, PathError> {
    if segment == "" || (segment[0] != '{' && segment[|segment| - 1] != '}') then
      Ok(Literal(segment))
    else if segment[0] != '{' then Err(NoLeadingBrace)
    else if segment[|segment| - 1] != '}' then Err(NoTrailingBrace)
    else
      var inner := segment[1..|segment| - 1];
      match IndexOf(inner, ':')
      case None =>
        if inner == "" then Err(EmptyVariableName) else Ok(VarnameSegment(inner))
      case Some(i) =>
        if i == 0 then Err(EmptyVariableName)
        else if inner[i + 1..] != ".*" then Err(UnsupportedRegex)
        else Ok(VarnameWildcard(inner[..i]))
  }

  function PrintSegment(c: PathSegment): string {
    match c
    case Literal(text) => text
    case VarnameSegment(name) => "{" + name + "}"
    case VarnameWildcard(name) => "{" + name + ":.*}"
  }

  /** The segments that parsing a nonempty, slash-free string can produce. */
  predicate WellFormedSegment(c: PathSegment) {
    match c
    case Literal(text) => text != "" && '/' !in text && text[0] != '{' && text[|text| - 1] != '}'
    case VarnameSegment(name) => name != "" && '/' !in name && ':' !in name
    case VarnameWildcard(name) => name != "" && '/' !in name && ':' !in name
  }

  predicate WellFormed(p: Pattern) {
    forall i :: 0 <= i < |p| ==> WellFormedSegment(p[i])
  }

  lemma WildcardParses(name: string)
    requires name != "" && ':' !in name
    ensures ParseSegment("{" + name + ":.*}") == Ok(VarnameWildcard(name))
  {
    var segment := "{" + name + ":.*}";
    var inner := segment[1..|segment| - 1];
    assert inner == name + [':'] + ".*";
    FirstIndexOf(name, ':', ".*");
    assert inner[|name| + 1..] == ".*" && inner[..|name|] == name;
  }

  lemma VariableParses(name: string)
    requires name != "" && ':' !in name
    ensures ParseSegment("{" + name + "}") == Ok(VarnameSegment(name))
  {
    var segment := "{" + name + "}";
    assert segment[1..|segment| - 1] == name;
  }

  lemma PrintedSegmentIsCleanAndParses(c: PathSegment)
    requires WellFormedSegment(c)
    ensures PrintSegment(c) != "" && '/' !in PrintSegment(c)
    ensures ParseSegment(PrintSegment(c)) == Ok(c)
  {
    match c
    case Literal(_) =>
    case VarnameSegment(name) => VariableParses(name);
    case VarnameWildcard(name) => WildcardParses(name);
  }

  lemma ParsedSegmentPrintsBack(segment: string)
    requires segment != "" && '/' !in segment && ParseSegment(segment).Ok?
    ensures WellFormedSegment(ParseSegment(segment).value)
    ensures PrintSegment(ParseSegment(segment).value) == segment
  {
    if segment[0] == '{' {
      var inner := segment[1..|segment| - 1];
      assert segment == "{" + inner + "}";
      assert '/' !in inner;
      match IndexOf(inner, ':')
      case None =>
      case Some(i) => WildcardPrintsBack(segment, inner, i);
    }
  }

  lemma WildcardPrintsBack(segment: string, inner: string, i: nat)
    requires segment == "{" + inner + "}" && '/' !in inner
    requires i < |inner| && inner[i] == ':' && inner[i + 1..] == ".*" && ':' !in inner[..i]
    ensures '/' !in inner[..i] && segment == "{" + inner[..i] + ":.*}"
  {
    assert inner == inner[..i] + [inner[i]] + inner[i + 1..];
  }

  // ------------------------------------------------------- parsing a whole path

  /** The segments of a route path: what follows the leading slash, less one empty last segment. */
  function RouteSegments(path: string): Result<seq<string>, PathError> {
    if path == "" || path[0] != '/' then Err(NoLeadingSlash)
    else
      var parts := Split(path[1..], '/');
      var last := |parts| - 1;
      if exists i :: 0 <= i < last && parts[i] == "" then Err(EmptySegment)
      else Ok(if parts[last] == "" then parts[..last] else parts)
  }

  /** The same with the checking loop and the final pop written out. */
  method RoutePathToSegments(path: string) returns (r: Result<seq<string>, PathError>)
    ensures r == RouteSegments(path)
  {
    if path == "" || path[0] != '/' {
      return Err(NoLeadingSlash);
    }
    var ret := Split(path[1..], '/');
    for i := 0 to |ret| - 1
      invariant forall k :: 0 <= k < i ==> ret[k] != ""
    {
      if ret[i] == "" {
        return Err(EmptySegment);
      }
    }
    if ret[|ret| - 1] == "" {
      ret := ret[..|ret| - 1];
    }
    return Ok(ret);
  }

  function ParseSegments(segments: seq<string>): (r: Result<Pattern, PathError>)
    ensures r.Ok? ==> |r.value| == |segments|
    ensures r.Ok? ==> forall i :: 0 <= i < |segments| ==> ParseSegment(segments[i]) == Ok(r.value[i])
    ensures (forall i :: 0 <= i < |segments| ==> ParseSegment(segments[i]).Ok?) ==> r.Ok?
  {
    if segments == [] then Ok([])
    else match ParseSegment(segments[0])
      case Err(e) => Err(e)
      case Ok(c) => match ParseSegments(segments[1..])
        case Err(e) => Err(e)
        case Ok(rest) => Ok([c] + rest)
  }

  function ParsePath(path: string): Result<Pattern, PathError> {
    match RouteSegments(path)
    case Err(e) => Err(e)
    case Ok(segments) => ParseSegments(segments)
  }

  function PrintSegments(p: Pattern): (r: seq<string>)
    ensures |r| == |p| && forall i :: 0 <= i < |p| ==> r[i] == PrintSegment(p[i])
  {
    seq(|p|, i requires 0 <= i < |p| => PrintSegment(p[i]))
  }

  function PrintPattern(p: Pattern): string {
    "/" + Join(PrintSegments(p), '/')
  }

  /** Parsing the printed form of a well-formed pattern gives the pattern back. */
  lemma PrintThenParse(p: Pattern)
    requires WellFormed(p)
    ensures ParsePath(PrintPattern(p)) == Ok(p)
  {
    PrintedSegmentsSplit(p);
    PrintedSegmentsParse(p);
  }

  lemma PrintedSegmentsSplit(p: Pattern)
    requires WellFormed(p)
    ensures RouteSegments(PrintPattern(p)) == Ok(PrintSegments(p))
  {
    var segments := PrintSegments(p);
    forall i | 0 <= i < |p| ensures segments[i] != "" && '/' !in segments[i] {
      PrintedSegmentIsCleanAndParses(p[i]);
    }
    var path := PrintPattern(p);
    assert path[1..] == Join(segments, '/');
    if p == [] {
      assert Split("", '/') == [""];
      assert path[1..] == "";
      assert Split(path[1..], '/')[..0] == segments;
    } else {
      SplitJoin(segments, '/');
    }
  }

  lemma {:induction false} SegmentwiseParse(segments: seq<string>, p: Pattern)
    requires |segments| == |p| && forall i :: 0 <= i < |p| ==> ParseSegment(segments[i]) == Ok(p[i])
    ensures ParseSegments(segments) == Ok(p)
  {
    var parsed := ParseSegments(segments).value;
    forall i | 0 <= i < |p| ensures parsed[i] == p[i] {
      assert ParseSegment(segments[i]) == Ok(parsed[i]);
    }
    assert parsed == p;
  }

  lemma PrintedSegmentsParse(p: Pattern)
    requires WellFormed(p)
    ensures ParseSegments(PrintSegments(p)) == Ok(p)
  {
    forall i | 0 <= i < |p| ensures ParseSegment(PrintSegments(p)[i]) == Ok(p[i]) {
      PrintedSegmentIsCleanAndParses(p[i]);
    }
    SegmentwiseParse(PrintSegments(p), p);
  }

  lemma {:induction false} JoinAppendEmpty(parts: seq<string>, c: char)
    requires parts != []
    ensures Join(parts + [""], c) == Join(parts, c) + [c]
  {
    if |parts| > 1 {
      JoinAppendEmpty(parts[1..], c);
      assert (parts + [""])[1..] == parts[1..] + [""];
    } else {
      assert (parts + [""])[1..] == [""];
    }
  }

  /** Printing a parsed route path gives the path back, up to one trailing slash. */
  lemma ParseThenPrint(path: string)
    requires ParsePath(path).Ok?
    ensures WellFormed(ParsePath(path).value)
    ensures path == PrintPattern(ParsePath(path).value) || path == PrintPattern(ParsePath(path).value) + "/"
  {
    hide ParseSegment, PrintSegment, WellFormedSegment;
    var p := ParsePath(path).value;
    var parts := Split(path[1..], '/');
    var segments := RouteSegments(path).value;
    var last := |parts| - 1;
    forall i | 0 <= i < |p| ensures WellFormedSegment(p[i]) && PrintSegment(p[i]) == segments[i] {
      assert segments[i] == parts[i];
      ParsedSegmentPrintsBack(segments[i]);
    }
    assert PrintSegments(p) == segments;
    JoinSplit(path[1..], '/');
    assert path == "/" + Join(parts, '/');
    if parts[last] == "" {
      assert parts == segments + [""];
      if segments == [] {
        assert Join(parts, '/') == "";
      } else {
        JoinAppendEmpty(segments, '/');
        assert path == PrintPattern(p) + "/";
      }
    }
  }

  /** One trailing slash is ignored in the path of a route other than the root. */
  lemma TrailingSlashParses(p: Pattern)
    requires WellFormed(p) && p != []
    ensures ParsePath(PrintPattern(p) + "/") == Ok(p)
  {
    var segments, path := PrintSegments(p), PrintPattern(p) + "/";
    forall i | 0 <= i < |p| ensures segments[i] != "" && '/' !in segments[i] {
      PrintedSegmentIsCleanAndParses(p[i]);
    }
    hide PrintSegment, ParseSegment, WellFormedSegment;
    JoinAppendEmpty(segments, '/');
    assert path[1..] == Join(segments + [""], '/');
    SplitJoin(segments + [""], '/');
    assert (segments + [""])[..|segments|] == segments;
    assert RouteSegments(path) == Ok(segments);
    PrintedSegmentsParse(p);
  }

  /** The paths that parse, and what as: just the printed forms of well-formed patterns, with or without that slash. */
  lemma ParsesAsIff(path: string, p: Pattern)
    ensures ParsePath(path) == Ok(p) <==>
      WellFormed(p) && (path == PrintPattern(p) || (p != [] && path == PrintPattern(p) + "/"))
  {
    hide ParsePath, PrintPattern, WellFormedSegment;
    if ParsePath(path).Ok? { ParseThenPrint(path); }
    if WellFormed(p) {
      PrintThenParse(p);
      if p != [] { TrailingSlashParses(p); }
    }
    TwoSlashesDoNotParse();
    assert "/" + "/" == "//";
  }

  lemma TwoSlashesDoNotParse()
    ensures PrintPattern([]) == "/" && ParsePath("//").Err?
  {
    assert "//"[1..] == "/" && "/"[1..] == "";
    assert Split("/", '/') == ["", ""];
  }

  // ---------------------------------------------- printing as the iterator does

  /** The route iterator shows a wildcard as a plain variable. */
  function Erase(c: PathSegment): PathSegment {
    match c
    case VarnameWildcard(name) => VarnameSegment(name)
    case _ => c
  }

  function ErasePattern(p: Pattern): (q: Pattern)
    ensures |q| == |p| && forall i :: 0 <= i < |p| ==> q[i] == Erase(p[i])
  {
    seq(|p|, i requires 0 <= i < |p| => Erase(p[i]))
  }

  function ListedPath(p: Pattern): string {
    PrintPattern(ErasePattern(p))
  }

  /** A listed path shows literals as they are, and the name of every variable in braces. */
  lemma ListedPathShows(p: Pattern, parts: seq<string>)
    requires |parts| == |p|
    requires forall i :: 0 <= i < |p| ==> parts[i] == if p[i].Literal? then p[i].text else "{" + p[i].name + "}"
    ensures ListedPath(p) == "/" + Join(parts, '/')
  {
    assert PrintSegments(ErasePattern(p)) == parts;
  }

  lemma ListedPathDeterminesErasure(p: Pattern, q: Pattern)
    requires WellFormed(p) && WellFormed(q)
    requires ListedPath(p) == ListedPath(q)
    ensures ErasePattern(p) == ErasePattern(q)
  {
    PrintThenParse(ErasePattern(p));
    PrintThenParse(ErasePattern(q));
  }

  // --------------------------------------------------------- paths of requests

  datatype InputError = DotSegment | BadEncoding

  function NonEmpty(parts: seq<string>): (r: seq<string>)
    ensures forall s :: s in r <==> s in parts && s != ""
  {
    if parts == [] then []
    else if parts[0] == "" then NonEmpty(parts[1..])
    else [parts[0]] + NonEmpty(parts[1..])
  }

  /** The dot-segment test looks at the raw segment, before percent-decoding. */
  function DecodeSegment(decode: string -> Option<string>, raw: string): Result<string, InputError> {
    if raw == "." || raw == ".." then Err(DotSegment)
    else match decode(raw)
      case None => Err(BadEncoding)
      case Some(s) => Ok(s)
  }

  function DecodeSegments(decode: string -> Option<string>, raws: seq<string>): Result<seq<string>, InputError> {
    if raws == [] then Ok([])
    else match DecodeSegment(decode, raws[0])
      case Err(e) => Err(e)
      case Ok(s) => match DecodeSegments(decode, raws[1..])
        case Err(e) => Err(e)
        case Ok(rest) => Ok([s] + rest)
  }

  /** The decoded segments of a request path; empty segments are dropped. */
  function InputSegments(decode: string -> Option<string>, path: string): Result<seq<string>, InputError> {
    DecodeSegments(decode, NonEmpty(Split(path, '/')))
  }

  lemma {:induction false} SplitAt(a: string, b: string, c: char)
    ensures Split(a + [c] + b, c) == Split(a, c) + Split(b, c)
  {
    var whole := a + [c] + b;
    if a == "" {
      assert whole[0] == c && whole[1..] == b;
    } else {
      SplitAt(a[1..], b, c);
      assert whole[0] == a[0] && whole[1..] == a[1..] + [c] + b;
      SplitAtNext(Split(a[1..], c), Split(b, c), whole, a, c);
    }
  }

  lemma SplitAtNext(rest: seq<string>, after: seq<string>, whole: string, a: string, c: char)
    requires a != "" && whole != "" && whole[0] == a[0] && rest != []
    requires Split(whole[1..], c) == rest + after && Split(a[1..], c) == rest
    ensures Split(whole, c) == Split(a, c) + after
  {
    hide *;
    SplitOnce(whole, c);
    SplitOnce(a, c);
    if a[0] == c {
      assert [""] + (rest + after) == [""] + rest + after;
    } else {
      var first := [a[0]] + rest[0];
      assert (rest + after)[1..] == rest[1..] + after;
      assert [first] + (rest[1..] + after) == [first] + rest[1..] + after;
    }
  }

  lemma SplitOnce(s: string, c: char)
    requires s != ""
    ensures var rest := Split(s[1..], c);
      Split(s, c) == if s[0] == c then [""] + rest else [[s[0]] + rest[0]] + rest[1..]
  {
  }

  lemma {:induction false} NonEmptyConcat(a: seq<string>, b: seq<string>)
    ensures NonEmpty(a + b) == NonEmpty(a) + NonEmpty(b)
  {
    if a == [] {
      assert a + b == b;
    } else {
      assert (a + b)[1..] == a[1..] + b;
      NonEmptyConcat(a[1..], b);
    }
  }

  /** Consecutive slashes in a request count as one. */
  lemma SlashesCollapse(decode: string -> Option<string>, a: string, b: string)
    ensures InputSegments(decode, a + "//" + b) == InputSegments(decode, a + "/" + b)
  {
    assert a + "//" + b == a + "/" + ("/" + b) && "/" + b == "" + "/" + b;
    SplitAt(a, "/" + b, '/');
    SplitAt("", b, '/');
    SplitAt(a, b, '/');
    NonEmptyConcat(Split(a, '/'), [""] + Split(b, '/'));
    NonEmptyConcat(Split(a, '/'), Split(b, '/'));
    assert ([""] + Split(b, '/'))[1..] == Split(b, '/');
  }

  /** A slash at the end of a request makes no difference. */
  lemma LastSlashIsIgnored(decode: string -> Option<string>, a: string)
    ensures InputSegments(decode, a + "/") == InputSegments(decode, a)
  {
    assert a + "/" == a + ['/'] + "";
    SplitAt(a, "", '/');
    assert Split("", '/') == [""];
    NonEmptyConcat(Split(a, '/'), [""]);
    assert NonEmpty([""]) == [];
    assert NonEmpty(Split(a, '/')) + [] == NonEmpty(Split(a, '/'));
  }

  lemma {:induction false} DecodedPointwise(decode: string -> Option<string>, raws: seq<string>)
    ensures DecodeSegments(decode, raws).Ok? <==> forall i :: 0 <= i < |raws| ==> DecodeSegment(decode, raws[i]).Ok?
    ensures DecodeSegments(decode, raws).Ok? ==>
      var decoded := DecodeSegments(decode, raws).value;
      |decoded| == |raws| && forall i :: 0 <= i < |raws| ==> DecodeSegment(decode, raws[i]) == Ok(decoded[i])
  {
    if raws != [] { DecodedPointwise(decode, raws[1..]); }
  }

  lemma {:induction false} NonEmptyKeepsAll(parts: seq<string>)
    requires forall i :: 0 <= i < |parts| ==> parts[i] != ""
    ensures NonEmpty(parts) == parts
  {
    if parts != [] { NonEmptyKeepsAll(parts[1..]); }
  }

  /**
    A request path written from raw segments is read as just these segments,
    decoded -- unless one is a dot-segment as it stands, or cannot be decoded.
   */
  lemma RequestPathIsRead(decode: string -> Option<string>, raws: seq<string>)
    requires forall i :: 0 <= i < |raws| ==> raws[i] != "" && '/' !in raws[i]
    ensures var r := InputSegments(decode, "/" + Join(raws, '/'));
      && (r.Ok? <==> forall i :: 0 <= i < |raws| ==> raws[i] != "." && raws[i] != ".." && decode(raws[i]).Some?)
      && (r.Ok? ==> |r.value| == |raws| && forall i :: 0 <= i < |raws| ==> decode(raws[i]) == Some(r.value[i]))
  {
    var path, rest := "/" + Join(raws, '/'), Split(Join(raws, '/'), '/');
    assert path == "" + "/" + Join(raws, '/');
    SplitAt("", Join(raws, '/'), '/');
    NonEmptyConcat([""], rest);
    assert NonEmpty([""]) == [] + NonEmpty([]);
    if raws == [] {
      assert rest == [""];
    } else {
      SplitJoin(raws, '/');
    }
    NonEmptyKeepsAll(raws);
    assert NonEmpty(Split(path, '/')) == raws;
    DecodedPointwise(decode, raws);
  }
}
