/**
 Routing: splitting paths, matching a pattern's segments, choosing a handler, and the 405 and 404 answers,
 against the declarative rule of precedence.
 */
module Router {
  import opened Collections

  type Params = map<string, string>

  // ---------- Paths ----------

  /** No segment of a path is empty or contains a slash. */
  predicate IsSegment(s: string) {
    s != "" && '/' !in s
  }

  ghost predicate AreSegments(segments: seq<string>) {
    forall i :: 0 <= i < |segments| ==> IsSegment(segments[i])
  }

  /** Segments of a path, with `pending` the characters of the segment being read. */
  function SplitFrom(path: string, pending: string): seq<string>
    decreases |path|
  {
    if path == "" then (if pending == "" then [] else [pending])
    else if path[0] == '/' then (if pending == "" then [] else [pending]) + SplitFrom(path[1..], "")
    else SplitFrom(path[1..], pending + [path[0]])
  }

  function Split(path: string): seq<string> {
    SplitFrom(path, "")
  }

  function Join(segments: seq<string>): string {
    if segments == [] then ""
    else if |segments| == 1 then segments[0]
    else segments[0] + "/" + Join(segments[1..])
  }

  method SplitPath(path: string) returns (segments: seq<string>)
    ensures segments == Split(path) && AreSegments(segments)
  {
    segments := [];
    var segment := "";
    for i := 0 to |path|
      invariant segments + SplitFrom(path[i..], segment) == Split(path)
      invariant AreSegments(segments) && '/' !in segment
    {
      assert path[i..][1..] == path[i + 1..];
      if path[i] == '/' {
        if segment != "" {
          assert segments + ([segment] + SplitFrom(path[i + 1..], "")) == segments + [segment] + SplitFrom(path[i + 1..], "");
          segments := segments + [segment];
        } else {
          assert [] + SplitFrom(path[i + 1..], "") == SplitFrom(path[i + 1..], "");
        }
        segment := "";
      } else {
        segment := segment + [path[i]];
      }
    }
    if segment != "" {
      segments := segments + [segment];
    }
  }

  lemma {:induction false} SplitSegment(s: string, rest: string, pending: string)
    requires '/' !in s
    ensures SplitFrom(s + rest, pending) == SplitFrom(rest, pending + s)
    decreases |s|
  {
    if s == "" {
      assert s + rest == rest && pending + s == pending;
    } else {
      assert (s + rest)[0] == s[0] && (s + rest)[1..] == s[1..] + rest;
      SplitSegment(s[1..], rest, pending + [s[0]]);
      assert pending + [s[0]] + s[1..] == pending + s;
    }
  }

  /** Joining segments and splitting again gives them back. */
  lemma {:induction false} SplitJoin(segments: seq<string>)
    requires AreSegments(segments)
    ensures Split(Join(segments)) == segments
    decreases |segments|
  {
    if segments != [] {
      var first := segments[0];
      assert "" + first == first;
      if |segments| == 1 {
        SplitSegment(first, "", "");
        assert first + "" == first;
        assert segments == [first];
      } else {
        var rest := "/" + Join(segments[1..]);
        SplitSegment(first, rest, "");
        assert first + "/" + Join(segments[1..]) == first + rest;
        assert rest[1..] == Join(segments[1..]);
        SplitJoin(segments[1..]);
      }
    }
  }

  // ---------- Pattern segments ----------

  predicate IsWildcard(segment: string) {
    segment != "" && segment[0] == '*'
  }

  function IndexOf(s: string, c: char): (r: nat)
    ensures r <= |s|
    ensures r < |s| ==> s[r] == c
    ensures forall i :: 0 <= i < r ==> s[i] != c
  {
    if s == "" || s[0] == c then 0 else 1 + IndexOf(s[1..], c)
  }

  datatype Typed = Typed(name: string, kind: string)

  /** "{name}" or "{name:type}". */
  function ParseTyped(segment: string): Option<Typed> {
    if |segment| < 2 || segment[0] != '{' || segment[|segment| - 1] != '}' then None
    else
      var inner := segment[1..|segment| - 1];
      var colon := IndexOf(inner, ':');
      if colon == |inner| then Some(Typed(inner, "")) else Some(Typed(inner[..colon], inner[colon + 1..]))
  }

  predicate IsDigit(c: char) {
    '0' <= c <= '9'
  }

  function DecimalValue(s: string): nat
    requires forall i :: 0 <= i < |s| ==> IsDigit(s[i])
  {
    if s == "" then 0
    else
      assert IsDigit(s[|s| - 1]);
      DecimalValue(s[..|s| - 1]) * 10 + (s[|s| - 1] as int - '0' as int)
  }

  predicate IsDecimal(digits: string, limit: nat) {
    && digits != "" && (forall i :: 0 <= i < |digits| ==> IsDigit(digits[i]))
    && DecimalValue(digits) <= limit
  }

  /** A 64-bit signed integer in decimal: an optional minus sign, digits, in range. */
  predicate IsInt64(s: string) {
    if s != "" && s[0] == '-' then IsDecimal(s[1..], 0x8000_0000_0000_0000)
    else IsDecimal(s, 0x7FFF_FFFF_FFFF_FFFF)
  }

  predicate IsHexDigit(c: char) {
    IsDigit(c) || 'a' <= c <= 'f' || 'A' <= c <= 'F'
  }

  predicate IsUuid(s: string) {
    |s| == 36 &&
    forall i :: 0 <= i < |s| ==> if i in {8, 13, 18, 23} then s[i] == '-' else IsHexDigit(s[i])
  }

  predicate KnownKind(kind: string) {
    kind in {"", "str", "int", "uuid"}
  }

  predicate FitsKind(kind: string, value: string) {
    if kind == "" || kind == "str" then true
    else if kind == "int" then IsInt64(value)
    else if kind == "uuid" then IsUuid(value)
    else false
  }

  /** What one pattern segment is. */
  datatype Segment = Literal(text: string) | Capture(name: string, kind: string) | Rest(name: string)

  function Classify(segment: string): Segment {
    if IsWildcard(segment) then Rest(if |segment| > 1 then segment[1..] else "*")
    else
      match ParseTyped(segment)
      case Some(t) => Capture(t.name, t.kind)
      case None => if segment != "" && segment[0] == ':' then Capture(segment[1..], "") else Literal(segment)
  }

  // ---------- Matching, declaratively ----------

  predicate SegmentMatches(segment: string, value: string) {
    match Classify(segment)
    case Literal(text) => text == value
    case Capture(_, kind) => FitsKind(kind, value)
    case Rest(_) => false
  }

  /** A wildcard stands only at the end. */
  ghost predicate WellFormed(pattern: seq<string>) {
    forall i :: 0 <= i < |pattern| - 1 ==> !IsWildcard(pattern[i])
  }

  predicate EndsInWildcard(pattern: seq<string>) {
    pattern != [] && IsWildcard(pattern[|pattern| - 1])
  }

  /** Segments in front of a final wildcard, or all. */
  function Fixed(pattern: seq<string>): nat {
    if EndsInWildcard(pattern) then |pattern| - 1 else |pattern|
  }

  ghost predicate Matches(pattern: seq<string>, request: seq<string>) {
    && (if EndsInWildcard(pattern) then |request| >= Fixed(pattern) else |request| == |pattern|)
    && forall i :: 0 <= i < Fixed(pattern) ==> SegmentMatches(pattern[i], request[i])
  }

  /** The literal segments of a pattern. */
  function Literals(pattern: seq<string>): nat {
    if pattern == [] || IsWildcard(pattern[0]) then 0
    else (if Classify(pattern[0]).Literal? then 1 else 0) + Literals(pattern[1..])
  }

  /** The parameters a matching request gives a pattern; of two with one name the later counts. */
  function Extract(pattern: seq<string>, request: seq<string>): Params
    decreases |pattern|
  {
    if pattern == [] then map[]
    else
      match Classify(pattern[0])
      case Rest(name) => map[name := Join(request)]
      case Literal(_) => if request == [] then map[] else Extract(pattern[1..], request[1..])
      case Capture(name, _) =>
        if request == [] then map[] else map[name := request[0]] + Extract(pattern[1..], request[1..])
  }

  // ---------- Matching, as the source does it ----------

  /** The first i segments of the pattern match, with these many literals and these parameters. */
  ghost predicate MatchedSoFar(pattern: seq<string>, request: seq<string>, i: nat, literals: nat, params: Params) {
    && i <= Fixed(pattern) && i <= |request|
    && (forall k :: 0 <= k < i ==> SegmentMatches(pattern[k], request[k]))
    && literals + Literals(pattern[i..]) == Literals(pattern)
    && params + Extract(pattern[i..], request[i..]) == Extract(pattern, request)
  }

  lemma NoneMatchedYet(pattern: seq<string>, request: seq<string>)
    ensures MatchedSoFar(pattern, request, 0, 0, map[])
  {
    assert pattern[0..] == pattern && request[0..] == request;
    assert map[] + Extract(pattern, request) == Extract(pattern, request);
  }

  lemma OneMoreMatched(pattern: seq<string>, request: seq<string>, i: nat, literals: nat, params: Params)
    requires MatchedSoFar(pattern, request, i, literals, params) && i < |pattern| && i < |request|
    requires !IsWildcard(pattern[i]) && SegmentMatches(pattern[i], request[i])
    ensures match Classify(pattern[i])
            case Literal(_) => MatchedSoFar(pattern, request, i + 1, literals + 1, params)
            case Capture(name, _) => MatchedSoFar(pattern, request, i + 1, literals, params[name := request[i]])
            case Rest(_) => false
  {
    hide SegmentMatches, IsWildcard, Fixed, Classify, Join;
    assert IsWildcard(pattern[i]) <==> Classify(pattern[i]).Rest? by {
      WildcardIsRest(pattern[i]);
    }
    assert i + 1 <= Fixed(pattern) by {
      FixedCovers(pattern, i);
    }
    var p, r := pattern[i..], request[i..];
    assert p[0] == pattern[i] && p[1..] == pattern[i + 1..];
    assert r[0] == request[i] && r[1..] == request[i + 1..];
    if Classify(pattern[i]).Capture? {
      var name := Classify(pattern[i]).name;
      var rest := Extract(pattern[i + 1..], request[i + 1..]);
      assert params + (map[name := request[i]] + rest) == params[name := request[i]] + rest;
    }
  }

  lemma WildcardIsRest(segment: string)
    ensures IsWildcard(segment) <==> Classify(segment).Rest?
  {
  }

  lemma FixedCovers(pattern: seq<string>, i: nat)
    requires i < |pattern| && !IsWildcard(pattern[i])
    ensures i + 1 <= Fixed(pattern)
  {
  }

  lemma NotMatched(pattern: seq<string>, request: seq<string>, i: nat)
    requires i < |pattern| && !IsWildcard(pattern[i])
    requires i >= |request| || !SegmentMatches(pattern[i], request[i])
    ensures !Matches(pattern, request)
  {
    FixedCovers(pattern, i);
  }

  lemma RestMatched(pattern: seq<string>, request: seq<string>, i: nat, literals: nat, params: Params)
    requires WellFormed(pattern) && i < |pattern| && IsWildcard(pattern[i])
    requires MatchedSoFar(pattern, request, i, literals, params)
    ensures i <= |request| && Matches(pattern, request) && literals == Literals(pattern)
    ensures params[Classify(pattern[i]).name := Join(request[i..])] == Extract(pattern, request)
  {
    assert i == |pattern| - 1;
    WildcardIsRest(pattern[i]);
    assert pattern[i..] == [pattern[i]];
  }

  lemma AllMatched(pattern: seq<string>, request: seq<string>, literals: nat, params: Params)
    requires MatchedSoFar(pattern, request, |pattern|, literals, params)
    ensures Matches(pattern, request) <==> |pattern| == |request|
    ensures literals == Literals(pattern) && params == Extract(pattern, request)
  {
    assert pattern[|pattern|..] == [];
    assert params + map[] == params;
  }

  /** The number of literals matched, or -1; and the parameters. */
  method MatchSegments(pattern: seq<string>, request: seq<string>) returns (literals: int, params: Params)
    requires WellFormed(pattern)
    ensures literals == if Matches(pattern, request) then Literals(pattern) else -1
    ensures literals >= 0 ==> params == Extract(pattern, request)
  {
    hide MatchedSoFar, Matches, Literals, Extract, WellFormed, FitsKind;
    literals, params := 0, map[];
    NoneMatchedYet(pattern, request);
    for i := 0 to |pattern|
      invariant literals >= 0 && MatchedSoFar(pattern, request, i, literals, params)
    {
      var segment := pattern[i];
      if IsWildcard(segment) {
        RestMatched(pattern, request, i, literals, params);
        var rest := JoinFrom(request, i);
        params := params[if |segment| > 1 then segment[1..] else "*" := rest];
        return;
      }
      if i >= |request| {
        NotMatched(pattern, request, i);
        return -1, params;
      }
      if SegmentMatches(segment, request[i]) {
        OneMoreMatched(pattern, request, i, literals, params);
      } else {
        NotMatched(pattern, request, i);
      }
      var typed := ParseTyped(segment);
      if typed.Some? {
        if !FitsKind(typed.value.kind, request[i]) {
          return -1, params;
        }
        params := params[typed.value.name := request[i]];
      } else if segment != "" && segment[0] == ':' {
        assert FitsKind("", request[i]) by {
          AnyKind(request[i]);
        }
        params := params[segment[1..] := request[i]];
      } else if segment != request[i] {
        return -1, params;
      } else {
        literals := literals + 1;
      }
    }
    AllMatched(pattern, request, literals, params);
    if |pattern| != |request| {
      literals := -1;
    }
  }

  lemma AnyKind(value: string)
    ensures FitsKind("", value)
  {
  }

  method JoinFrom(request: seq<string>, i: nat) returns (rest: string)
    requires i <= |request|
    ensures rest == Join(request[i..])
  {
    rest := "";
    for j := i to |request|
      invariant rest == Join(request[i..j])
    {
      assert request[i..j + 1] == request[i..j] + [request[j]];
      JoinAdd(request[i..j], request[j]);
      if j > i {
        rest := rest + "/";
      }
      rest := rest + request[j];
    }
    assert request[i..|request|] == request[i..];
  }

  lemma {:induction false} JoinAdd(a: seq<string>, s: string)
    ensures Join(a + [s]) == if a == [] then s else Join(a) + "/" + s
    decreases |a|
  {
    if a == [] {
      assert a + [s] == [s];
    } else {
      JoinAdd(a[1..], s);
      assert (a + [s])[0] == a[0] && (a + [s])[1..] == a[1..] + [s];
      if |a| > 1 {
        assert a[0] + "/" + (Join(a[1..]) + "/" + s) == a[0] + "/" + Join(a[1..]) + "/" + s;
      } else {
        assert a[1..] == [];
      }
    }
  }

  // ---------- Substituting back ----------

  ghost function Names(pattern: seq<string>): seq<string> {
    if pattern == [] then []
    else
      match Classify(pattern[0])
      case Literal(_) => Names(pattern[1..])
      case Capture(name, _) => [name] + Names(pattern[1..])
      case Rest(name) => [name]
  }

  ghost predicate Distinct(names: seq<string>) {
    forall i, j :: 0 <= i < j < |names| ==> names[i] != names[j]
  }

  /** The pattern with its parameters filled in. */
  ghost function Substitute(pattern: seq<string>, params: Params): seq<string>
    decreases |pattern|
  {
    if pattern == [] then []
    else
      match Classify(pattern[0])
      case Literal(text) => [text] + Substitute(pattern[1..], params)
      case Capture(name, _) => [if name in params then params[name] else ""] + Substitute(pattern[1..], params)
      case Rest(name) => Split(if name in params then params[name] else "")
  }

  lemma {:induction false} ExtractKeys(pattern: seq<string>, request: seq<string>)
    ensures forall name :: name in Extract(pattern, request) ==> name in Names(pattern)
    decreases |pattern|
  {
    hide Classify;
    if pattern != [] && request != [] {
      ExtractKeys(pattern[1..], request[1..]);
    }
  }

  /** Parameters a pattern does not name do not matter to it. */
  lemma {:induction false} SubstituteIgnores(pattern: seq<string>, params: Params, name: string, value: string)
    requires name !in Names(pattern)
    ensures Substitute(pattern, map[name := value] + params) == Substitute(pattern, params)
    decreases |pattern|
  {
    hide Classify;
    if pattern != [] {
      match Classify(pattern[0])
      case Literal(_) => SubstituteIgnores(pattern[1..], params, name, value);
      case Capture(_, _) => SubstituteIgnores(pattern[1..], params, name, value);
      case Rest(_) =>
    }
  }

  lemma MatchesTail(pattern: seq<string>, request: seq<string>)
    requires pattern != [] && request != [] && !IsWildcard(pattern[0]) && WellFormed(pattern) && Matches(pattern, request)
    ensures WellFormed(pattern[1..]) && Matches(pattern[1..], request[1..])
  {
    var p, r := pattern[1..], request[1..];
    forall i | 0 <= i < Fixed(p)
      ensures SegmentMatches(p[i], r[i])
    {
      assert SegmentMatches(pattern[i + 1], request[i + 1]);
    }
  }

  lemma MatchesHead(pattern: seq<string>, request: seq<string>)
    requires pattern != [] && !IsWildcard(pattern[0]) && Matches(pattern, request)
    ensures request != [] && SegmentMatches(pattern[0], request[0])
  {
  }

  lemma DistinctHead(name: string, names: seq<string>)
    requires Distinct([name] + names)
    ensures name !in names && Distinct(names)
  {
    var all := [name] + names;
    forall i | 0 <= i < |names|
      ensures names[i] != name
    {
      assert all[0] != all[i + 1];
    }
    forall i, j | 0 <= i < j < |names|
      ensures names[i] != names[j]
    {
      assert all[i + 1] != all[j + 1];
    }
  }

  /** Filling the extracted parameters into a pattern with distinct names gives back the request. */
  lemma {:induction false} SubstituteExtract(pattern: seq<string>, request: seq<string>)
    requires WellFormed(pattern) && Matches(pattern, request) && AreSegments(request) && Distinct(Names(pattern))
    ensures Substitute(pattern, Extract(pattern, request)) == request
    decreases |pattern|
  {
    hide Classify, Matches, WellFormed, IsSegment;
    if pattern == [] {
      MatchesNothing(request);
    } else {
      WildcardIsRest(pattern[0]);
      match Classify(pattern[0])
      case Rest(_) =>
        SplitJoin(request);
      case Literal(text) =>
        MatchesHead(pattern, request);
        MatchesTail(pattern, request);
        LiteralIsValue(pattern[0], request[0]);
        SubstituteExtract(pattern[1..], request[1..]);
      case Capture(name, _) =>
        MatchesHead(pattern, request);
        MatchesTail(pattern, request);
        DistinctHead(name, Names(pattern[1..]));
        SubstituteExtract(pattern[1..], request[1..]);
        ExtractKeys(pattern[1..], request[1..]);
        SubstituteIgnores(pattern[1..], Extract(pattern[1..], request[1..]), name, request[0]);
    }
  }

  lemma MatchesNothing(request: seq<string>)
    requires Matches([], request)
    ensures request == []
  {
  }

  lemma LiteralIsValue(segment: string, value: string)
    requires Classify(segment).Literal? && SegmentMatches(segment, value)
    ensures Classify(segment).text == value
  {
  }

  // ---------- Dispatch ----------

  datatype Method = GET | HEAD | POST | PUT | PATCH | DELETE | OPTIONS | UNKNOWN

  const ALL_METHODS := [GET, HEAD, POST, PUT, PATCH, DELETE, OPTIONS]

  lemma AllMethods()
    ensures forall m :: m in ALL_METHODS <==> m != UNKNOWN
    ensures forall i, j :: 0 <= i < j < |ALL_METHODS| ==> ALL_METHODS[i] != ALL_METHODS[j]
  {
    forall m: Method
      ensures m in ALL_METHODS <==> m != UNKNOWN
    {
      match m
      case GET => assert ALL_METHODS[0] == m;
      case HEAD => assert ALL_METHODS[1] == m;
      case POST => assert ALL_METHODS[2] == m;
      case PUT => assert ALL_METHODS[3] == m;
      case PATCH => assert ALL_METHODS[4] == m;
      case DELETE => assert ALL_METHODS[5] == m;
      case OPTIONS => assert ALL_METHODS[6] == m;
      case UNKNOWN =>
    }
  }

  type Handler = nat

  datatype Route = Route(verb: Method, pattern: seq<string>, handler: Handler)

  datatype Table = Table(exact: map<(Method, string), Handler>, dynamic: seq<Route>)

  datatype Choice = Choice(handler: Handler, params: Params)

  ghost predicate WellFormedTable(t: Table) {
    forall i :: 0 <= i < |t.dynamic| ==> WellFormed(t.dynamic[i].pattern)
  }

  /** Route i serves this method and path. */
  ghost predicate Serves(t: Table, verb: Method, request: seq<string>, i: nat) {
    i < |t.dynamic| && t.dynamic[i].verb == verb && Matches(t.dynamic[i].pattern, request)
  }

  ghost predicate ServesPlain(t: Table, verb: Method, request: seq<string>, i: nat) {
    Serves(t, verb, request, i) && !EndsInWildcard(t.dynamic[i].pattern)
  }

  ghost predicate ServesWild(t: Table, verb: Method, request: seq<string>, i: nat) {
    Serves(t, verb, request, i) && EndsInWildcard(t.dynamic[i].pattern)
  }

  /** i is the first plain route that serves the request. */
  ghost predicate FirstPlain(t: Table, verb: Method, request: seq<string>, i: nat) {
    ServesPlain(t, verb, request, i) && forall j :: 0 <= j < i ==> !ServesPlain(t, verb, request, j)
  }

  /** i is the wildcard route that serves the request with most literals, the earliest such. */
  ghost predicate BestWild(t: Table, verb: Method, request: seq<string>, i: nat) {
    && ServesWild(t, verb, request, i)
    && forall j: nat :: ServesWild(t, verb, request, j) ==>
         var mine, other := Literals(t.dynamic[i].pattern), Literals(t.dynamic[j].pattern);
         other <= mine && (j < i ==> other < mine)
  }

  function ChoiceOf(t: Table, request: seq<string>, i: nat): Choice
    requires i < |t.dynamic|
  {
    Choice(t.dynamic[i].handler, Extract(t.dynamic[i].pattern, request))
  }

  /** The rule of precedence: exact, else the first plain match, else the best wildcard, else nothing. */
  ghost predicate ByRule(t: Table, verb: Method, path: string, found: Option<Choice>) {
    var request := Split(path);
    if (verb, path) in t.exact then found == Some(Choice(t.exact[(verb, path)], map[]))
    else if exists i: nat :: ServesPlain(t, verb, request, i) then
      exists i: nat :: FirstPlain(t, verb, request, i) && found == Some(ChoiceOf(t, request, i))
    else if exists i: nat :: ServesWild(t, verb, request, i) then
      exists i: nat :: BestWild(t, verb, request, i) && found == Some(ChoiceOf(t, request, i))
    else found == None
  }

  /** The rule leaves no choice. */
  lemma RuleIsUnique(t: Table, verb: Method, path: string, a: Option<Choice>, b: Option<Choice>)
    requires ByRule(t, verb, path, a) && ByRule(t, verb, path, b)
    ensures a == b
  {
    hide Matches, Extract, Literals, Split;
    var request := Split(path);
    if (verb, path) !in t.exact {
      if exists i: nat :: ServesPlain(t, verb, request, i) {
        var i: nat :| FirstPlain(t, verb, request, i) && a == Some(ChoiceOf(t, request, i));
        var j: nat :| FirstPlain(t, verb, request, j) && b == Some(ChoiceOf(t, request, j));
        assert i == j;
      } else if exists i: nat :: ServesWild(t, verb, request, i) {
        var i: nat :| BestWild(t, verb, request, i) && a == Some(ChoiceOf(t, request, i));
        var j: nat :| BestWild(t, verb, request, j) && b == Some(ChoiceOf(t, request, j));
        assert i == j;
      }
    }
  }

  /** Something answers this method on this path. */
  ghost predicate Answers(t: Table, verb: Method, path: string) {
    (verb, path) in t.exact || exists i: nat :: Serves(t, verb, Split(path), i)
  }

  lemma RuleFindsAnswers(t: Table, verb: Method, path: string, found: Option<Choice>)
    requires ByRule(t, verb, path, found)
    ensures found.Some? <==> Answers(t, verb, path)
  {
    hide Serves, Matches, Extract, Literals, Split;
    var request := Split(path);
    if i: nat :| Serves(t, verb, request, i) {
      assert ServesPlain(t, verb, request, i) || ServesWild(t, verb, request, i);
    }
  }

  /** A HEAD request falls back to GET. */
  ghost predicate Dispatched(t: Table, verb: Method, path: string) {
    Answers(t, verb, path) || (verb == HEAD && Answers(t, GET, path))
  }

  datatype Response = Handled(choice: Choice) | MethodNotAllowed(allow: seq<Method>) | NotFound

  /** Midway through the dynamic routes: no plain route served so far, and `best` is the best wildcard so far. */
  ghost predicate Scanned(t: Table, verb: Method, request: seq<string>, n: nat, best: Option<nat>, literals: int) {
    && n <= |t.dynamic|
    && (forall j :: 0 <= j < n ==> !ServesPlain(t, verb, request, j))
    && (match best
        case None => literals == -1 && forall j :: 0 <= j < n ==> !ServesWild(t, verb, request, j)
        case Some(i) =>
          && i < n && ServesWild(t, verb, request, i) && literals == Literals(t.dynamic[i].pattern)
          && forall j :: 0 <= j < n && ServesWild(t, verb, request, j) ==>
               Literals(t.dynamic[j].pattern) <= literals && (j < i ==> Literals(t.dynamic[j].pattern) < literals))
  }

  class Router {
    var table: Table

    ghost predicate Valid()
      reads this
    {
      WellFormedTable(table)
    }

    constructor ()
      ensures Valid() && table == Table(map[], [])
    {
      table := Table(map[], []);
    }

    /** Registers a route; false if its pattern is refused. */
    method AddRoute(verb: Method, path: string, handler: Handler) returns (ok: bool)
      requires Valid()
      modifies this
      ensures Valid()
      ensures ok <==> var p := Split(path); WellFormed(p) && forall i :: 0 <= i < |p| ==> TypedOk(p[i])
      ensures !ok ==> table == old(table)
      ensures ok ==> table == Register(old(table), verb, path, handler)
    {
      var segments := SplitPath(path);
      for i := 0 to |segments|
        invariant forall k :: 0 <= k < i ==> TypedOk(segments[k])
        invariant forall k :: 0 <= k < i && k < |segments| - 1 ==> !IsWildcard(segments[k])
      {
        if IsWildcard(segments[i]) && i + 1 != |segments| {
          return false;
        }
        var typed := ParseTyped(segments[i]);
        if typed.Some? && (typed.value.name == "" || !KnownKind(typed.value.kind)) {
          return false;
        }
      }
      if IsDynamic(path) {
        table := table.(dynamic := table.dynamic + [Route(verb, segments, handler)]);
      } else {
        table := table.(exact := table.exact[(verb, path) := handler]);
      }
      return true;
    }

    /** The handler for a method on a path, with its parameters. */
    method FindHandler(verb: Method, path: string) returns (found: Option<Choice>)
      requires Valid()
      ensures ByRule(table, verb, path, found)
    {
      hide Split, Matches, Extract, Literals, WellFormed, Scanned, ByRule;
      var request := SplitPath(path);
      if (verb, path) in table.exact {
        found := Some(Choice(table.exact[(verb, path)], map[]));
        RuleExact(table, verb, path);
        return;
      }
      var best: Option<nat> := None;
      var bestLiterals := -1;
      ScanStarts(table, verb, request);
      for n := 0 to |table.dynamic|
        invariant Scanned(table, verb, request, n, best, bestLiterals)
      {
        var route := table.dynamic[n];
        ScanStep(table, verb, request, n, best, bestLiterals);
        if route.verb != verb {
          continue;
        }
        var literals, params := MatchSegments(route.pattern, request);
        if EndsInWildcard(route.pattern) {
          if literals > bestLiterals {
            bestLiterals := literals;
            best := Some(n);
          }
          continue;
        }
        if literals >= 0 {
          RulePlain(table, verb, path, n, best, bestLiterals);
          return Some(Choice(route.handler, params));
        }
      }
      RuleScanned(table, verb, path, best, bestLiterals);
      if best.Some? {
        var literals, params := MatchSegments(table.dynamic[best.value].pattern, request);
        return Some(Choice(table.dynamic[best.value].handler, params));
      }
      return None;
    }

    /** Dispatch with the HEAD fallback; otherwise 405 with the methods the path has, or 404. */
    method Dispatch(verb: Method, path: string) returns (response: Response)
      requires Valid()
      ensures response.Handled? <==> Dispatched(table, verb, path)
      ensures response.Handled? && Answers(table, verb, path) ==> ByRule(table, verb, path, Some(response.choice))
      ensures response.Handled? && !Answers(table, verb, path) ==> ByRule(table, GET, path, Some(response.choice))
      ensures response.MethodNotAllowed? ==>
                && response.allow != []
                && (forall m :: m in response.allow <==> m != UNKNOWN && Dispatched(table, m, path))
                && (forall i, j :: 0 <= i < j < |response.allow| ==> response.allow[i] != response.allow[j])
      ensures response.NotFound? ==> forall m :: m != UNKNOWN ==> !Dispatched(table, m, path)
    {
      hide ByRule, Answers, WellFormedTable;
      var found := FindHandler(verb, path);
      RuleFindsAnswers(table, verb, path, found);
      if found.None? && verb == HEAD {
        found := FindHandler(GET, path);
        RuleFindsAnswers(table, GET, path, found);
      }
      if found.Some? {
        return Handled(found.value);
      }
      var allow: seq<Method> := [];
      for i := 0 to |ALL_METHODS|
        invariant forall m :: m in allow <==> m in ALL_METHODS[..i] && Dispatched(table, m, path)
        invariant forall j, k :: 0 <= j < k < |allow| ==> allow[j] != allow[k]
      {
        var m := ALL_METHODS[i];
        var exists_ := FindHandler(m, path);
        RuleFindsAnswers(table, m, path, exists_);
        if exists_.None? && m == HEAD {
          exists_ := FindHandler(GET, path);
          RuleFindsAnswers(table, GET, path, exists_);
        }
        assert ALL_METHODS[..i + 1] == ALL_METHODS[..i] + [m];
        AllMethods();
        assert m !in ALL_METHODS[..i];
        if exists_.Some? {
          allow := allow + [m];
        }
      }
      assert ALL_METHODS[..|ALL_METHODS|] == ALL_METHODS;
      AllMethods();
      if allow != [] {
        return MethodNotAllowed(allow);
      }
      return NotFound;
    }
  }

  /** A typed segment needs a name and a known type. */
  predicate TypedOk(segment: string) {
    var typed := ParseTyped(segment);
    typed.Some? ==> typed.value.name != "" && KnownKind(typed.value.kind)
  }

  predicate IsDynamic(path: string) {
    ':' in path || '*' in path || '{' in path
  }

  /** The table with one more route: a pattern behind the others, or a path of its own. */
  function Register(t: Table, verb: Method, path: string, handler: Handler): Table {
    if IsDynamic(path) then t.(dynamic := t.dynamic + [Route(verb, Split(path), handler)])
    else t.(exact := t.exact[(verb, path) := handler])
  }

  lemma RuleExact(t: Table, verb: Method, path: string)
    requires (verb, path) in t.exact
    ensures ByRule(t, verb, path, Some(Choice(t.exact[(verb, path)], map[])))
  {
  }

  lemma ScanStarts(t: Table, verb: Method, request: seq<string>)
    ensures Scanned(t, verb, request, 0, None, -1)
  {
  }

  lemma ScanStep(t: Table, verb: Method, request: seq<string>, n: nat, best: Option<nat>, literals: int)
    requires Scanned(t, verb, request, n, best, literals) && n < |t.dynamic|
    ensures var r := t.dynamic[n];
            var serves := r.verb == verb && Matches(r.pattern, request);
            if serves && !EndsInWildcard(r.pattern) then true
            else if serves && Literals(r.pattern) > literals then
              Scanned(t, verb, request, n + 1, Some(n), Literals(r.pattern))
            else Scanned(t, verb, request, n + 1, best, literals)
    ensures literals >= -1
  {
    hide Matches, Literals;
  }

  lemma RulePlain(t: Table, verb: Method, path: string, n: nat, best: Option<nat>, literals: int)
    requires (verb, path) !in t.exact && Scanned(t, verb, Split(path), n, best, literals) && n < |t.dynamic|
    requires ServesPlain(t, verb, Split(path), n)
    ensures ByRule(t, verb, path, Some(ChoiceOf(t, Split(path), n)))
  {
    assert FirstPlain(t, verb, Split(path), n);
  }

  lemma RuleScanned(t: Table, verb: Method, path: string, best: Option<nat>, literals: int)
    requires (verb, path) !in t.exact && Scanned(t, verb, Split(path), |t.dynamic|, best, literals)
    ensures match best
            case None => ByRule(t, verb, path, None)
            case Some(i) =>
              && i < |t.dynamic| && Matches(t.dynamic[i].pattern, Split(path))
              && ByRule(t, verb, path, Some(ChoiceOf(t, Split(path), i)))
  {
    hide Matches, Literals, Split, Extract;
    var request := Split(path);
    assert forall i: nat :: !ServesPlain(t, verb, request, i);
    if best.Some? {
      assert BestWild(t, verb, request, best.value);
    } else {
      assert forall i: nat :: !ServesWild(t, verb, request, i);
    }
  }
}
