/**
 Whole multipart messages: parsing one inverts writing it, and exactly which cuts of its bytes into feeds
 the parser does not notice.
 */
module MultipartMessages {
  import opened Bytes
  import opened Collections
  import opened Multipart

  // ---------- Whole messages ----------

  /** A part as a client writes it: its header block and its content. */
  datatype Part = Part(block: seq<byte>, content: seq<byte>)

  /** The bytes behind a boundary: the parts still to come, and the closing dashes. */
  function PartsBytes(cfg: Config, parts: seq<Part>): seq<byte> {
    if parts == [] then DASHES
    else
      CRLF + (parts[0].block + (CRLF + CRLF + (parts[0].content + (Delimiter(cfg) + PartsBytes(cfg, parts[1..])))))
  }

  function MessageBytes(cfg: Config, parts: seq<Part>): seq<byte> {
    DashBoundary(cfg) + PartsBytes(cfg, parts)
  }

  /** Neither the header block nor the content holds what ends it, and the content is within its limit. */
  ghost predicate LegalPart(cfg: Config, part: Part) {
    && Find(part.block + (CRLF + CRLF), CRLF + CRLF) == Some(|part.block|)
    && Find(part.content + Delimiter(cfg), Delimiter(cfg)) == Some(|part.content|)
    && |part.content| <=
       if cfg.parseHeaders(part.block).filename != [] then cfg.maxFileSize else cfg.maxFieldSize
  }

  ghost predicate AllLegal(cfg: Config, parts: seq<Part>) {
    forall i :: 0 <= i < |parts| ==> LegalPart(cfg, parts[i])
  }

  ghost predicate FileSystemWorks(cfg: Config) {
    cfg.hasUploadDir && (forall f :: cfg.canCreate(f)) && (forall f, n :: cfg.canGrow(f, n))
  }

  /** The first occurrence of a pattern at the end of a string stays the first whatever follows. */
  lemma FindExtends(s: seq<byte>, pattern: seq<byte>, rest: seq<byte>)
    requires Find(s + pattern, pattern) == Some(|s|)
    ensures Find(s + (pattern + rest), pattern) == Some(|s|)
  {
    hide Find;
    var whole := s + (pattern + rest);
    assert whole[|s|..|s| + |pattern|] == pattern;
    forall j | 0 <= j < |s|
      ensures !OccursAt(whole, pattern, j)
    {
      if OccursAt(whole, pattern, j) {
        assert (s + pattern)[j..j + |pattern|] == whole[j..j + |pattern|];
        FindFirst(s + pattern, pattern, j);
      }
    }
    FindIs(whole, pattern, |s|);
  }

  /** The parser that has read a part's headers. */
  function BodyStart(cfg: Config, p: Parser, part: Part): Parser {
    var headers := cfg.parseHeaders(part.block);
    var p1 := p.(parts := p.parts + 1, headers := headers, buffer := [], size := 0, phase := ReadingBody);
    if headers.filename != [] then
      p1.(path := Some(p.created), files := p.files[p.created := []], created := p.created + 1)
    else p1.(fieldValue := [])
  }

  /** The parser that has closed a part. */
  function AfterPart(cfg: Config, p: Parser, part: Part): Parser {
    CloseCurrent(cfg, Holding(BodyStart(cfg, p, part), part.content)).(phase := FindingBoundary)
  }

  function AfterParts(cfg: Config, p: Parser, parts: seq<Part>): Parser
    decreases |parts|
  {
    if parts == [] then p else AfterParts(cfg, AfterPart(cfg, p, parts[0]), parts[1..])
  }

  /** Between parts: looking for a boundary, nothing open. */
  ghost predicate BetweenParts(p: Parser) {
    p.phase.FindingBoundary? && !p.failed && p.path.None?
  }

  lemma BoundaryTurn(cfg: Config, p: Parser, rest: seq<byte>)
    requires BetweenParts(p)
    ensures var q := p.(buffer := DashBoundary(cfg) + (CRLF + rest));
            Turn(cfg, q) == (p.(buffer := rest, phase := ReadingHeaders), true)
    ensures var q := p.(buffer := DashBoundary(cfg) + (DASHES + rest));
            Turn(cfg, q) == (p.(buffer := [], finished := true), false)
  {
    hide Find, DashBoundary;
    BoundaryFound(cfg, CRLF + rest);
    BoundaryFound(cfg, DASHES + rest);
    assert (CRLF + rest)[..2] == CRLF && (CRLF + rest)[2..] == rest && (DASHES + rest)[..2] == DASHES && CRLF != DASHES;
  }

  lemma HeaderTurn(cfg: Config, p: Parser, part: Part, rest: seq<byte>)
    requires BetweenParts(p) && LegalPart(cfg, part) && FileSystemWorks(cfg) && p.parts < cfg.maxParts
    ensures var q := p.(buffer := part.block + (CRLF + CRLF + rest), phase := ReadingHeaders);
            Turn(cfg, q) == (BodyStart(cfg, p, part).(buffer := rest), true)
  {
    hide Find;
    FindExtends(part.block, CRLF + CRLF, rest);
    var b := part.block + (CRLF + CRLF + rest);
    assert b[..|part.block|] == part.block && b[|part.block| + 4..] == rest;
  }

  lemma ContentTurn(cfg: Config, p: Parser, part: Part, rest: seq<byte>)
    requires BetweenParts(p) && LegalPart(cfg, part) && FileSystemWorks(cfg)
    ensures var q := BodyStart(cfg, p, part).(buffer := part.content + (Delimiter(cfg) + rest));
            Turn(cfg, q) == (AfterPart(cfg, p, part).(buffer := DashBoundary(cfg) + rest), true)
  {
    hide Find, AppendBody, CloseCurrent, DashBoundary, OpenTempFile, Fail;
    FindExtends(part.content, Delimiter(cfg), rest);
    var start := BodyStart(cfg, p, part);
    var b := part.content + (Delimiter(cfg) + rest);
    assert b[..|part.content|] == part.content;
    assert b[|part.content| + 2..] == DashBoundary(cfg) + rest;
    assert start == Holding(start, []) by {
      NothingHeld(start);
    }
    AppendHolding(cfg, start, [], part.content, b, p.total);
    assert [] + part.content == part.content;
    CloseIgnoresBuffer(cfg, Holding(start, part.content), b, DashBoundary(cfg) + rest);
  }

  lemma NothingHeld(p: Parser)
    requires AtBodyStart(p)
    ensures Holding(p, []) == p
  {
    if p.path.Some? {
      assert p.files[p.path.value := []] == p.files;
    }
  }

  lemma PartParsed(cfg: Config, p: Parser, part: Part, rest: seq<byte>)
    requires BetweenParts(p) && LegalPart(cfg, part) && FileSystemWorks(cfg) && p.parts < cfg.maxParts
    ensures var tail := CRLF + (part.block + (CRLF + CRLF + (part.content + (Delimiter(cfg) + rest))));
            Process(cfg, p.(buffer := DashBoundary(cfg) + tail)) ==
            Process(cfg, AfterPart(cfg, p, part).(buffer := DashBoundary(cfg) + rest))
    ensures BetweenParts(AfterPart(cfg, p, part)) && AfterPart(cfg, p, part).parts == p.parts + 1
  {
    hide Turn, Find, Delimiter, DashBoundary, AfterPart, BodyStart, LegalPart;
    var content := part.content + (Delimiter(cfg) + rest);
    var headers := part.block + (CRLF + CRLF + content);
    BoundaryTurn(cfg, p, headers);
    HeaderTurn(cfg, p, part, content);
    ContentTurn(cfg, p, part, rest);
    StartOpen(cfg, p, part);
    PartClosed(cfg, p, part);
    OneTurn(cfg, p.(buffer := DashBoundary(cfg) + (CRLF + headers)));
    OneTurn(cfg, p.(buffer := headers, phase := ReadingHeaders));
    OneTurn(cfg, BodyStart(cfg, p, part).(buffer := content));
  }

  lemma StartOpen(cfg: Config, p: Parser, part: Part)
    ensures BodyStart(cfg, p, part).failed == p.failed
  {
  }

  lemma PartClosed(cfg: Config, p: Parser, part: Part)
    requires BetweenParts(p)
    ensures BetweenParts(AfterPart(cfg, p, part)) && AfterPart(cfg, p, part).parts == p.parts + 1
  {
  }

  lemma {:induction false} PartsParsedBefore(cfg: Config, p: Parser, parts: seq<Part>, epilogue: seq<byte>)
    requires BetweenParts(p) && AllLegal(cfg, parts) && FileSystemWorks(cfg) && p.parts + |parts| <= cfg.maxParts
    ensures Process(cfg, p.(buffer := DashBoundary(cfg) + (PartsBytes(cfg, parts) + epilogue))) ==
            AfterParts(cfg, p, parts).(buffer := [], finished := true)
    decreases |parts|
  {
    hide Turn, Delimiter, DashBoundary, AfterPart, LegalPart, FileSystemWorks;
    if parts == [] {
      BoundaryTurn(cfg, p, epilogue);
    } else {
      var rest := PartsBytes(cfg, parts[1..]);
      assert LegalPart(cfg, parts[0]);
      PartsBytesThen(cfg, parts, epilogue);
      PartParsed(cfg, p, parts[0], rest + epilogue);
      PartsParsedBefore(cfg, AfterPart(cfg, p, parts[0]), parts[1..], epilogue);
    }
  }

  lemma PartsBytesThen(cfg: Config, parts: seq<Part>, epilogue: seq<byte>)
    requires parts != []
    ensures var part, rest := parts[0], PartsBytes(cfg, parts[1..]);
            PartsBytes(cfg, parts) + epilogue ==
            CRLF + (part.block + (CRLF + CRLF + (part.content + (Delimiter(cfg) + (rest + epilogue)))))
  {
    hide Delimiter;
    var part, rest := parts[0], PartsBytes(cfg, parts[1..]);
    var tail := Delimiter(cfg) + rest;
    AppendAssoc(Delimiter(cfg), rest, epilogue);
    AppendAssoc(part.content, tail, epilogue);
    AppendAssoc(CRLF + CRLF, part.content + tail, epilogue);
    AppendAssoc(part.block, CRLF + CRLF + (part.content + tail), epilogue);
    AppendAssoc(CRLF, part.block + (CRLF + CRLF + (part.content + tail)), epilogue);
  }

  lemma PartsParsed(cfg: Config, p: Parser, parts: seq<Part>)
    requires BetweenParts(p) && AllLegal(cfg, parts) && FileSystemWorks(cfg) && p.parts + |parts| <= cfg.maxParts
    ensures Process(cfg, p.(buffer := MessageBytes(cfg, parts))) ==
            AfterParts(cfg, p, parts).(buffer := [], finished := true)
  {
    hide Process, PartsBytes, AfterParts;
    PartsParsedBefore(cfg, p, parts, []);
    assert PartsBytes(cfg, parts) + [] == PartsBytes(cfg, parts);
  }

  /** What the application is told about one part. */
  function PartReport(cfg: Config, part: Part, created: nat): seq<Report> {
    var h := cfg.parseHeaders(part.block);
    if h.name == [] then []
    else if h.filename != [] then
      if cfg.hasFileHandler then [File(h.name, h.filename, h.contentType, created)] else []
    else if cfg.hasFieldHandler then [Field(h.name, part.content)] else []
  }

  function PartReports(cfg: Config, parts: seq<Part>, created: nat): seq<Report>
    decreases |parts|
  {
    if parts == [] then []
    else
      PartReport(cfg, parts[0], created) + PartReports(cfg, parts[1..], NextCreated(cfg, parts[0], created))
  }

  /** The temporary files left for the application, by the number of their creation. */
  function PartFiles(cfg: Config, parts: seq<Part>, created: nat): map<nat, seq<byte>>
    decreases |parts|
  {
    if parts == [] then map[]
    else PartFile(cfg, parts[0], created) + PartFiles(cfg, parts[1..], NextCreated(cfg, parts[0], created))
  }

  function NextCreated(cfg: Config, part: Part, created: nat): nat {
    if cfg.parseHeaders(part.block).filename != [] then created + 1 else created
  }

  /** The file one part leaves for the application, if it does. */
  function PartFile(cfg: Config, part: Part, created: nat): map<nat, seq<byte>> {
    var h := cfg.parseHeaders(part.block);
    if h.filename != [] && h.name != [] && cfg.hasFileHandler then map[created := part.content] else map[]
  }

  lemma OnePartReported(cfg: Config, p: Parser, part: Part)
    requires BetweenParts(p) && p.created !in p.files
    ensures var q := AfterPart(cfg, p, part);
            && q.reports == p.reports + PartReport(cfg, part, p.created)
            && q.created == NextCreated(cfg, part, p.created)
            && q.files == p.files + PartFile(cfg, part, p.created)
            && !q.failed && q.total == p.total
  {
    if cfg.parseHeaders(part.block).filename != [] {
      assert p.files[p.created := part.content] - {p.created} == p.files;
      assert p.files[p.created := part.content] == p.files + map[p.created := part.content];
    }
  }

  lemma {:induction false} PartsReported(cfg: Config, p: Parser, parts: seq<Part>)
    requires BetweenParts(p) && forall f :: f in p.files ==> f < p.created
    ensures var q := AfterParts(cfg, p, parts);
            && q.reports == p.reports + PartReports(cfg, parts, p.created)
            && q.files == p.files + PartFiles(cfg, parts, p.created)
            && !q.failed
    decreases |parts|
  {
    hide AfterPart, PartReport, PartFile;
    if parts != [] {
      OnePartReported(cfg, p, parts[0]);
      PartClosed(cfg, p, parts[0]);
      PartFileNumber(cfg, parts[0], p.created);
      PartsReported(cfg, AfterPart(cfg, p, parts[0]), parts[1..]);
      MapAssoc(p.files, PartFile(cfg, parts[0], p.created),
               PartFiles(cfg, parts[1..], NextCreated(cfg, parts[0], p.created)));
    }
  }

  lemma PartFileNumber(cfg: Config, part: Part, created: nat)
    ensures forall f :: f in PartFile(cfg, part, created) ==> f < NextCreated(cfg, part, created)
  {
  }

  lemma MapAssoc(x: map<nat, seq<byte>>, y: map<nat, seq<byte>>, z: map<nat, seq<byte>>)
    ensures (x + y) + z == x + (y + z)
  {
  }

  /**
   Parsing inverts writing: a whole message of legal parts is reported part by part, in order, each field
   with its content and each file with its content on disk, and the message is complete.
   */
  lemma MessageParsed(cfg: Config, parts: seq<Part>)
    requires AllLegal(cfg, parts) && FileSystemWorks(cfg) && |parts| <= cfg.maxParts
    requires |MessageBytes(cfg, parts)| <= cfg.maxTotalSize
    ensures var p := Feed(cfg, START, MessageBytes(cfg, parts));
            && p.finished && !p.failed
            && p.reports == PartReports(cfg, parts, 0)
            && p.files == PartFiles(cfg, parts, 0)
  {
    hide Process, MessageBytes, AfterParts, PartReports, PartFiles;
    var b := MessageBytes(cfg, parts);
    var p := START.(total := |b|);
    assert [] + b == b;
    PartsParsed(cfg, p, parts);
    PartsReported(cfg, p, parts);
    assert map[] + PartFiles(cfg, parts, 0) == PartFiles(cfg, parts, 0);
    assert [] + PartReports(cfg, parts, 0) == PartReports(cfg, parts, 0);
  }

  lemma BoundaryFound(cfg: Config, rest: seq<byte>)
    ensures Find(DashBoundary(cfg) + rest, DashBoundary(cfg)) == Some(0)
    ensures (DashBoundary(cfg) + rest)[|DashBoundary(cfg)|..] == rest
    ensures Find(CRLF, DashBoundary(cfg)).None?
  {
    var dash := DashBoundary(cfg);
    assert (dash + rest)[..|dash|] == dash;
    assert dash[0] == 45;
    if |dash| == 2 {
      assert CRLF[..2][0] == 13;
      assert |CRLF[1..]| < |dash|;
    }
  }

  lemma TurnWhole(cfg: Config, total: nat)
    ensures var p := START.(total := total, buffer := DashBoundary(cfg) + CRLF);
            Turn(cfg, p) == (p.(buffer := [], phase := ReadingHeaders), true)
  {
    hide Find, DashBoundary;
    BoundaryFound(cfg, CRLF);
    assert CRLF[..2] == CRLF && CRLF[2..] == [] && CRLF != DASHES;
  }

  lemma FeedWhole(cfg: Config)
    requires cfg.maxTotalSize >= |DashBoundary(cfg)| + 2
    ensures Feed(cfg, START, DashBoundary(cfg) + CRLF).phase.ReadingHeaders?
  {
    hide Turn, DashBoundary;
    var b := DashBoundary(cfg) + CRLF;
    assert [] + b == b;
    TurnWhole(cfg, |b|);
    var p := START.(total := |b|, buffer := b);
    ProcessNothing(cfg, p.(buffer := [], phase := ReadingHeaders));
    assert Feed(cfg, START, b) == Process(cfg, p);
  }

  lemma FeedBoundary(cfg: Config)
    requires cfg.maxTotalSize >= |DashBoundary(cfg)|
    ensures Feed(cfg, START, DashBoundary(cfg)) == START.(total := |DashBoundary(cfg)|)
  {
    hide Find, DashBoundary;
    var b := DashBoundary(cfg);
    BoundaryFound(cfg, []);
    assert [] + b == b && b + [] == b;
    var p := START.(total := |b|, buffer := b);
    assert Turn(cfg, p) == (p.(buffer := []), false);
  }

  /** A cut right behind a boundary is seen: the parser has already dropped the boundary it still needs. */
  lemma CutBehindBoundary(cfg: Config)
    requires cfg.maxTotalSize >= |DashBoundary(cfg)| + 2
    ensures Feed(cfg, START, DashBoundary(cfg) + CRLF).phase.ReadingHeaders?
    ensures Feed(cfg, Feed(cfg, START, DashBoundary(cfg)), CRLF).phase.FindingBoundary?
  {
    hide Find, DashBoundary;
    FeedWhole(cfg);
    FeedBoundary(cfg);
    BoundaryFound(cfg, []);
    assert [] + CRLF == CRLF;
    var p := START.(total := |DashBoundary(cfg)| + 2, buffer := CRLF);
    assert !Turn(cfg, p).1 && Turn(cfg, p).0.phase.FindingBoundary?;
  }

  // ---------- Cuts anywhere else ----------

  /**
   The loop stops only because it needs more input: it has failed nowhere, has not seen the closing
   boundary, and does not stand behind a boundary with fewer than two bytes.
   */
  ghost predicate WaitsForMore(cfg: Config, p: Parser)
    decreases |p.buffer|
  {
    if p.failed then false
    else if p.buffer == [] then true
    else if Turn(cfg, p).1 then WaitsForMore(cfg, Turn(cfg, p).0)
    else
      match p.phase
      case FindingBoundary => Find(p.buffer, DashBoundary(cfg)).None?
      case ReadingHeaders => Find(p.buffer, CRLF + CRLF).None? && |p.buffer| <= MAX_HEADERS
      case ReadingBody => Find(p.buffer, Delimiter(cfg)).None? && !Turn(cfg, p).0.failed
  }

  /** A first occurrence stays the first whatever follows. */
  lemma FindStays(s: seq<byte>, more: seq<byte>, pattern: seq<byte>)
    requires Find(s, pattern).Some?
    ensures Find(s + more, pattern) == Find(s, pattern)
  {
    hide Find;
    var i := Find(s, pattern).value;
    assert (s + more)[i..i + |pattern|] == s[i..i + |pattern|];
    forall j | 0 <= j < i
      ensures !OccursAt(s + more, pattern, j)
    {
      if OccursAt(s + more, pattern, j) {
        assert s[j..j + |pattern|] == (s + more)[j..j + |pattern|];
        FindFirst(s, pattern, j);
      }
    }
    FindIs(s + more, pattern, i);
  }

  function More(p: Parser, b: seq<byte>): Parser {
    p.(buffer := p.buffer + b)
  }

  /** The buffer plays no part in appending. */
  lemma AppendBuffer(cfg: Config, p: Parser, buffer: seq<byte>, data: seq<byte>)
    requires !p.failed
    ensures var q := AppendBody(cfg, p, data);
            AppendBody(cfg, p.(buffer := buffer), data) == if q.failed then q else q.(buffer := buffer)
  {
  }

  lemma FindingGoesOn(cfg: Config, p: Parser, b: seq<byte>)
    requires p.buffer != [] && !p.failed && p.phase.FindingBoundary? && Turn(cfg, p).1
    ensures Turn(cfg, More(p, b)) == (More(Turn(cfg, p).0, b), true)
  {
    hide Find, DashBoundary;
    var dash := DashBoundary(cfg);
    FindStays(p.buffer, b, dash);
    var pos := Find(p.buffer, dash).value;
    var rest := p.buffer[pos + |dash|..];
    assert (p.buffer + b)[pos + |dash|..] == rest + b;
    assert (rest + b)[..2] == rest[..2] && (rest + b)[2..] == rest[2..] + b;
  }

  lemma HeadersGoOn(cfg: Config, p: Parser, b: seq<byte>)
    requires p.buffer != [] && !p.failed && p.phase.ReadingHeaders? && Turn(cfg, p).1
    ensures Turn(cfg, More(p, b)) == (More(Turn(cfg, p).0, b), true)
  {
    hide Find;
    FindStays(p.buffer, b, CRLF + CRLF);
    var pos := Find(p.buffer, CRLF + CRLF).value;
    assert (p.buffer + b)[..pos] == p.buffer[..pos];
    assert (p.buffer + b)[pos + 4..] == p.buffer[pos + 4..] + b;
  }

  lemma BodyGoesOver(cfg: Config, p: Parser, b: seq<byte>)
    requires p.buffer != [] && !p.failed && p.phase.ReadingBody? && Turn(cfg, p).1
    ensures Turn(cfg, More(p, b)) == (More(Turn(cfg, p).0, b), true)
  {
    hide Find, Delimiter, AppendBody, CloseCurrent;
    FindStays(p.buffer, b, Delimiter(cfg));
    var pos := Find(p.buffer, Delimiter(cfg)).value;
    var data, rest := p.buffer[..pos], p.buffer[pos + 2..];
    assert (p.buffer + b)[..pos] == data;
    assert (p.buffer + b)[pos + 2..] == rest + b;
    AppendBuffer(cfg, p, p.buffer + b, data);
    var q := AppendBody(cfg, p, data);
    CloseIgnoresBuffer(cfg, q, p.buffer + b, rest + b);
    CloseIgnoresBuffer(cfg, q, q.buffer, rest + b);
  }

  lemma SameTurn(cfg: Config, p: Parser, q: Parser)
    requires p.buffer != [] && q.buffer != [] && !p.failed && !q.failed && Turn(cfg, p) == Turn(cfg, q)
    ensures Process(cfg, p) == Process(cfg, q)
  {
    hide Turn;
  }

  /** What a pass does with the bytes behind the boundary it found. */
  function BehindBoundary(p: Parser, rest: seq<byte>): (Parser, bool) {
    if |rest| < 2 then (p.(buffer := rest), false)
    else if rest[..2] == DASHES then (p.(finished := true, buffer := []), false)
    else if rest[..2] == CRLF then (p.(buffer := rest[2..], phase := ReadingHeaders), true)
    else (p.(buffer := rest[2..]), true)
  }

  /** A pass that looks for a boundary in `b`. */
  function FindingPass(cfg: Config, p: Parser, b: seq<byte>): (Parser, bool) {
    var dash := DashBoundary(cfg);
    match Find(b, dash)
    case None => (p.(buffer := b[Kept(b, dash)..]), false)
    case Some(i) => BehindBoundary(p, b[i + |dash|..])
  }

  lemma FindingTurn(cfg: Config, p: Parser, b: seq<byte>)
    requires p.phase.FindingBoundary? && !p.failed && b != []
    ensures Turn(cfg, p.(buffer := b)) == FindingPass(cfg, p, b)
  {
    hide Find, DashBoundary, AppendBody, CloseCurrent, OpenTempFile, Fail, Delimiter;
    assert b[0..] == b;
  }

  /** A pass that looks for a boundary sees the same with less in front of it. */
  lemma FindingTurnSame(cfg: Config, p: Parser, x: seq<byte>, b: seq<byte>)
    requires p.phase.FindingBoundary? && !p.failed && b != []
    requires match Find(b, DashBoundary(cfg))
             case None => Find(x + b, DashBoundary(cfg)).None? && (x != [] ==> |b| >= |DashBoundary(cfg)|)
             case Some(i) => Find(x + b, DashBoundary(cfg)) == Some(|x| + i)
    ensures Turn(cfg, p.(buffer := b)) == Turn(cfg, p.(buffer := x + b))
  {
    hide Turn, FindingPass;
    FindingTurn(cfg, p, b);
    FindingTurn(cfg, p, x + b);
    FindingPassSame(cfg, p, x, b);
  }

  lemma FindingPassSame(cfg: Config, p: Parser, x: seq<byte>, b: seq<byte>)
    requires match Find(b, DashBoundary(cfg))
             case None => Find(x + b, DashBoundary(cfg)).None? && (x != [] ==> |b| >= |DashBoundary(cfg)|)
             case Some(i) => Find(x + b, DashBoundary(cfg)) == Some(|x| + i)
    ensures FindingPass(cfg, p, b) == FindingPass(cfg, p, x + b)
  {
    hide Find, DashBoundary, Kept, BehindBoundary, OccursAt;
    var dash := DashBoundary(cfg);
    if Find(b, dash).None? {
      KeptOf(x, b, dash);
    } else {
      FoundFits(b, dash);
      FoundFits(x + b, dash);
      var i, j := Find(b, dash).value + |dash|, Find(x + b, dash).value + |dash|;
      assert (x + b)[j..] == b[i..] by {
        SuffixOf(x, b, i);
      }
    }
  }

  lemma FoundFits(s: seq<byte>, pattern: seq<byte>)
    ensures match Find(s, pattern)
            case None => true
            case Some(i) => i + |pattern| <= |s|
  {
  }

  lemma KeptOf(x: seq<byte>, b: seq<byte>, pattern: seq<byte>)
    requires x != [] ==> |b| >= |pattern|
    ensures (x + b)[Kept(x + b, pattern)..] == b[Kept(b, pattern)..]
  {
    if x == [] {
      assert x + b == b;
    } else {
      SuffixOf(x, b, Kept(b, pattern));
    }
  }

  lemma SuffixOf(x: seq<byte>, b: seq<byte>, k: nat)
    requires k <= |b|
    ensures (x + b)[|x| + k..] == b[k..]
  {
  }

  /** Dropping what cannot be the start of a boundary changes nothing later. */
  lemma FindingPauses(cfg: Config, p: Parser, b: seq<byte>)
    requires p.buffer != [] && !p.failed && p.phase.FindingBoundary? && Find(p.buffer, DashBoundary(cfg)).None?
    ensures Process(cfg, More(Turn(cfg, p).0, b)) == Process(cfg, More(p, b))
  {
    hide Find, OccursAt, Process, DashBoundary, Turn;
    var dash, a := DashBoundary(cfg), p.buffer;
    var k := Kept(a, dash);
    FindingTurn(cfg, p, a);
    assert Turn(cfg, p).0 == p.(buffer := a[k..]);
    TailOf(a, b, k);
    FindBehindKept(a, b, dash);
    assert a[..k] + (a[k..] + b) == a + b;
    FindingTurnSame(cfg, p, a[..k], a[k..] + b);
    SameTurn(cfg, p.(buffer := a[k..] + b), p.(buffer := a + b));
  }

  lemma AppendTwice(cfg: Config, p: Parser, x: seq<byte>, y: seq<byte>)
    requires !p.failed && !AppendBody(cfg, p, x).failed && InFiles(p)
    ensures AppendBody(cfg, AppendBody(cfg, p, x), y) == AppendBody(cfg, p, x + y)
  {
    if p.path.Some? {
      var f := p.path.value;
      var old_ := p.files[f];
      assert old_ + x + y == old_ + (x + y);
      assert p.files[f := old_ + x][f := old_ + x + y] == p.files[f := old_ + (x + y)];
      assert p.files[f := old_ + x] - {f} == p.files - {f};
    } else {
      assert p.fieldValue + x + y == p.fieldValue + (x + y);
    }
  }

  /** The open file exists. */
  ghost predicate InFiles(p: Parser) {
    p.path.Some? ==> p.path.value in p.files
  }

  /** A pass over body bytes of which `x` was written out before is a pass over all of them. */
  lemma BodyTurnSplit(cfg: Config, p: Parser, x: seq<byte>, b: seq<byte>)
    requires p.phase.ReadingBody? && !p.failed && InFiles(p) && !AppendBody(cfg, p, x).failed
    requires x != [] && |b| >= |Delimiter(cfg)|
    requires match Find(b, Delimiter(cfg))
             case None => Find(x + b, Delimiter(cfg)).None?
             case Some(i) => Find(x + b, Delimiter(cfg)) == Some(|x| + i)
    ensures AppendBody(cfg, p, x).phase.ReadingBody?
    ensures Turn(cfg, AppendBody(cfg, p, x).(buffer := b)) == Turn(cfg, p.(buffer := x + b))
  {
    hide Find, Delimiter, AppendBody, CloseCurrent, Turn;
    AppendPhase(cfg, p, x);
    if Find(b, Delimiter(cfg)).None? {
      BodyTurnSplitNone(cfg, p, x, b);
    } else {
      BodyTurnSplitSome(cfg, p, x, b);
    }
  }

  /** A pass over a body whose end is not in the buffer. */
  lemma TurnNotFound(cfg: Config, p: Parser, b: seq<byte>)
    requires p.phase.ReadingBody? && !p.failed && Find(b, Delimiter(cfg)).None? && Kept(b, Delimiter(cfg)) > 0
    ensures var k := Kept(b, Delimiter(cfg));
            Turn(cfg, p.(buffer := b)) ==
            var r := AppendBody(cfg, p, b[..k]);
            (if r.failed then r else r.(buffer := b[k..]), false)
  {
    hide Find, Delimiter, AppendBody, CloseCurrent, DashBoundary, OpenTempFile, Fail;
    AppendBuffer(cfg, p, b, b[..Kept(b, Delimiter(cfg))]);
  }

  /** A pass over the shortest buffer that may hold a delimiter, and does not. */
  lemma TurnShort(cfg: Config, p: Parser, b: seq<byte>)
    requires p.phase.ReadingBody? && !p.failed && Find(b, Delimiter(cfg)).None? && Kept(b, Delimiter(cfg)) == 0 && b != []
    ensures Turn(cfg, p.(buffer := b)) == (p.(buffer := b), false)
  {
    hide Find, Delimiter, AppendBody, CloseCurrent, DashBoundary, OpenTempFile, Fail;
  }

  lemma BodyTurnSplitNone(cfg: Config, p: Parser, x: seq<byte>, b: seq<byte>)
    requires p.phase.ReadingBody? && !p.failed && InFiles(p) && !AppendBody(cfg, p, x).failed
    requires x != [] && |b| >= |Delimiter(cfg)|
    requires Find(b, Delimiter(cfg)).None? && Find(x + b, Delimiter(cfg)).None?
    ensures Turn(cfg, AppendBody(cfg, p, x).(buffer := b)) == Turn(cfg, p.(buffer := x + b))
  {
    hide Find, Delimiter, AppendBody, InFiles, Turn;
    AppendPhase(cfg, p, x);
    var whole, n := x + b, Kept(b, Delimiter(cfg));
    assert whole[..|x| + n] == x + b[..n] && whole[|x| + n..] == b[n..];
    TurnNotFound(cfg, p, whole);
    if n == 0 {
      assert x + b[..n] == x;
      TurnShort(cfg, AppendBody(cfg, p, x), b);
    } else {
      AppendTwice(cfg, p, x, b[..n]);
      TurnNotFound(cfg, AppendBody(cfg, p, x), b);
    }
  }

  /** A pass over a body whose end is in the buffer. */
  lemma TurnFound(cfg: Config, p: Parser, b: seq<byte>, i: nat)
    requires p.phase.ReadingBody? && !p.failed && Find(b, Delimiter(cfg)) == Some(i)
    ensures b != [] && i + 2 <= |b|
    ensures Turn(cfg, p.(buffer := b)) ==
            var r := AppendBody(cfg, p, b[..i]);
            if r.failed then (r, false)
            else (CloseCurrent(cfg, r).(buffer := b[i + 2..], phase := FindingBoundary), true)
  {
    hide Find, Delimiter, AppendBody, CloseCurrent, DashBoundary, OpenTempFile, Fail;
    AppendBuffer(cfg, p, b, b[..i]);
    var r := AppendBody(cfg, p, b[..i]);
    CloseIgnoresBuffer(cfg, r, b, b[i + 2..]);
    CloseIgnoresBuffer(cfg, r, r.buffer, b[i + 2..]);
  }

  lemma BodyTurnSplitSome(cfg: Config, p: Parser, x: seq<byte>, b: seq<byte>)
    requires p.phase.ReadingBody? && !p.failed && InFiles(p) && !AppendBody(cfg, p, x).failed && b != []
    requires Find(b, Delimiter(cfg)).Some?
    requires Find(x + b, Delimiter(cfg)) == Some(|x| + Find(b, Delimiter(cfg)).value)
    ensures Turn(cfg, AppendBody(cfg, p, x).(buffer := b)) == Turn(cfg, p.(buffer := x + b))
  {
    hide Find, Delimiter, AppendBody, CloseCurrent, InFiles, Turn;
    AppendPhase(cfg, p, x);
    var whole, i := x + b, Find(b, Delimiter(cfg)).value;
    TurnFound(cfg, AppendBody(cfg, p, x), b, i);
    TurnFound(cfg, p, whole, |x| + i);
    assert whole[..|x| + i] == x + b[..i] && whole[|x| + i + 2..] == b[i + 2..];
    AppendTwice(cfg, p, x, b[..i]);
  }

  lemma AppendPhase(cfg: Config, p: Parser, x: seq<byte>)
    requires !p.failed && !AppendBody(cfg, p, x).failed
    ensures AppendBody(cfg, p, x).phase == p.phase && AppendBody(cfg, p, x).buffer == p.buffer
  {
  }

  /** Writing out what cannot be the start of a delimiter changes nothing later. */
  lemma BodyPauses(cfg: Config, p: Parser, b: seq<byte>)
    requires p.buffer != [] && !p.failed && p.phase.ReadingBody? && InFiles(p)
    requires Find(p.buffer, Delimiter(cfg)).None? && !Turn(cfg, p).0.failed
    ensures Process(cfg, More(Turn(cfg, p).0, b)) == Process(cfg, More(p, b))
  {
    hide Find, Delimiter, AppendBody, CloseCurrent;
    var delimiter, a := Delimiter(cfg), p.buffer;
    var k := Kept(a, delimiter);
    if k > 0 {
      var x, tail := a[..k], a[k..] + b;
      TailOf(a, b, k);
      FindBehindKept(a, b, delimiter);
      assert x + tail == a + b;
      AppendPhase(cfg, p, x);
      BodyTurnSplit(cfg, p, x, tail);
      SameTurn(cfg, AppendBody(cfg, p, x).(buffer := tail), p.(buffer := x + tail));
    }
  }

  lemma GoesOn(cfg: Config, p: Parser, b: seq<byte>)
    requires p.buffer != [] && !p.failed && Turn(cfg, p).1
    ensures Turn(cfg, More(p, b)) == (More(Turn(cfg, p).0, b), true)
  {
    hide Turn;
    match p.phase
    case FindingBoundary => FindingGoesOn(cfg, p, b);
    case ReadingHeaders => HeadersGoOn(cfg, p, b);
    case ReadingBody => BodyGoesOver(cfg, p, b);
  }

  lemma HeadersPause(cfg: Config, p: Parser)
    requires p.buffer != [] && !p.failed && p.phase.ReadingHeaders?
    requires Find(p.buffer, CRLF + CRLF).None? && |p.buffer| <= MAX_HEADERS
    ensures Turn(cfg, p) == (p, false)
  {
  }

  lemma InvInFiles(cfg: Config, p: Parser)
    requires Inv(cfg, p)
    ensures InFiles(p)
  {
  }

  /** If the loop waits for more, going on with more is as if all had come at once. */
  lemma {:induction false} ProcessSplit(cfg: Config, p: Parser, b: seq<byte>)
    requires WaitsForMore(cfg, p) && Inv(cfg, p)
    ensures Process(cfg, More(Process(cfg, p), b)) == Process(cfg, More(p, b))
    decreases |p.buffer|
  {
    hide Turn, Find, Inv, Delimiter, DashBoundary;
    if p.buffer != [] {
      InvInFiles(cfg, p);
      var (q, goes) := Turn(cfg, p);
      if goes {
        GoesOn(cfg, p, b);
        TurnKeeps(cfg, p);
        ProcessSplit(cfg, q, b);
        OneTurn(cfg, More(p, b));
      } else {
        match p.phase
        case FindingBoundary => FindingPauses(cfg, p, b);
        case ReadingHeaders => HeadersPause(cfg, p);
        case ReadingBody => BodyPauses(cfg, p, b);
      }
    }
  }

  /** A feed after which the parser only waits for more. */
  ghost predicate CleanCut(cfg: Config, p: Parser, a: seq<byte>) {
    !p.failed && WaitsForMore(cfg, p.(buffer := p.buffer + a, total := p.total + |a|))
  }

  lemma {:induction false} ProcessTotal(cfg: Config, p: Parser, total: nat)
    ensures Process(cfg, p.(total := total)) == Process(cfg, p).(total := total)
    decreases |p.buffer|
  {
    if p.buffer != [] && !p.failed {
      TurnTotal(cfg, p, total);
      var (q, goes) := Turn(cfg, p);
      if goes {
        ProcessTotal(cfg, q, total);
      }
    }
  }

  lemma TurnTotal(cfg: Config, p: Parser, total: nat)
    requires p.buffer != [] && !p.failed
    ensures Turn(cfg, p.(total := total)) == (Turn(cfg, p).0.(total := total), Turn(cfg, p).1)
  {
    hide Find, AppendBody, CloseCurrent, OpenTempFile, Fail, DashBoundary, Delimiter;
    match p.phase
    case FindingBoundary =>
    case ReadingHeaders => HeadersTotal(cfg, p, total);
    case ReadingBody => BodyTotal(cfg, p, total);
  }

  lemma FailTotal(p: Parser, total: nat)
    ensures Fail(p.(total := total)) == Fail(p).(total := total)
  {
  }

  lemma StartPartTotal(cfg: Config, p: Parser, pos: nat, total: nat)
    requires pos + 4 <= |p.buffer|
    ensures StartPart(cfg, p.(total := total), pos) == StartPart(cfg, p, pos).(total := total)
  {
    hide Fail;
    var headers := cfg.parseHeaders(p.buffer[..pos]);
    FailTotal(p.(headers := headers, buffer := p.buffer[pos + 4..], size := 0), total);
  }

  lemma HeadersTotal(cfg: Config, p: Parser, total: nat)
    requires p.buffer != [] && !p.failed && p.phase.ReadingHeaders?
    ensures Turn(cfg, p.(total := total)) == (Turn(cfg, p).0.(total := total), Turn(cfg, p).1)
  {
    hide Find, Fail, StartPart;
    FailTotal(p, total);
    FailTotal(p.(parts := p.parts + 1), total);
    match Find(p.buffer, CRLF + CRLF)
    case None =>
    case Some(pos) => StartPartTotal(cfg, p.(parts := p.parts + 1), pos, total);
  }

  lemma AppendTotal(cfg: Config, p: Parser, data: seq<byte>, total: nat)
    ensures AppendBody(cfg, p.(total := total), data) == AppendBody(cfg, p, data).(total := total)
  {
    hide Fail, Contents;
    FailTotal(p, total);
    match p.path
    case None =>
    case Some(f) => SameContents(p, p.(total := total), f);
  }

  lemma SameContents(p: Parser, q: Parser, f: nat)
    requires p.files == q.files
    ensures Contents(p, f) == Contents(q, f)
  {
  }

  lemma CloseTotal(cfg: Config, p: Parser, total: nat)
    ensures CloseCurrent(cfg, p.(total := total)) == CloseCurrent(cfg, p).(total := total)
  {
  }

  lemma BodyTotal(cfg: Config, p: Parser, total: nat)
    requires p.buffer != [] && !p.failed && p.phase.ReadingBody?
    ensures Turn(cfg, p.(total := total)) == (Turn(cfg, p).0.(total := total), Turn(cfg, p).1)
  {
    hide Find, AppendBody, CloseCurrent, Delimiter, DashBoundary, OpenTempFile, Fail;
    var b := p.buffer;
    match Find(b, Delimiter(cfg))
    case None =>
      AppendTotal(cfg, p, b[..Kept(b, Delimiter(cfg))], total);
    case Some(pos) =>
      AppendTotal(cfg, p, b[..pos], total);
      CloseTotal(cfg, AppendBody(cfg, p, b[..pos]), total);
  }

  /** A clean cut is not seen. */
  lemma CleanCutUnseen(cfg: Config, p: Parser, a: seq<byte>, b: seq<byte>)
    requires Inv(cfg, p) && CleanCut(cfg, p, a) && p.total + |a + b| <= cfg.maxTotalSize
    ensures Feed(cfg, Feed(cfg, p, a), b) == Feed(cfg, p, a + b)
  {
    hide Process, WaitsForMore;
    var p1 := p.(buffer := p.buffer + a, total := p.total + |a|);
    NewBuffer(cfg, p.(total := p.total + |a|), p.buffer + a);
    var q := Process(cfg, p1);
    WaitingHasNotFailed(cfg, p1);
    KeepsTotal(cfg, p1);
    ProcessSplit(cfg, p1, b);
    ProcessTotal(cfg, More(q, b), p.total + |a + b|);
    ProcessTotal(cfg, More(p1, b), p.total + |a + b|);
    assert p.buffer + a + b == p.buffer + (a + b);
  }

  lemma {:induction false} WaitingHasNotFailed(cfg: Config, p: Parser)
    requires WaitsForMore(cfg, p)
    ensures !Process(cfg, p).failed
    decreases |p.buffer|
  {
    if p.buffer != [] && Turn(cfg, p).1 {
      WaitingHasNotFailed(cfg, Turn(cfg, p).0);
    }
  }

  // ---------- Around and between the parts ----------

  /** Whatever stands before the first boundary is skipped. */
  lemma PreambleSkipped(cfg: Config, p: Parser, preamble: seq<byte>, rest: seq<byte>)
    requires BetweenParts(p) && Find(preamble + DashBoundary(cfg), DashBoundary(cfg)) == Some(|preamble|)
    ensures Process(cfg, p.(buffer := preamble + (DashBoundary(cfg) + rest))) ==
            Process(cfg, p.(buffer := DashBoundary(cfg) + rest))
  {
    hide Find, DashBoundary, Turn, Process;
    var b := DashBoundary(cfg) + rest;
    FindExtends(preamble, DashBoundary(cfg), rest);
    BoundaryFound(cfg, rest);
    FindingTurnSame(cfg, p, preamble, b);
    SameTurn(cfg, p.(buffer := b), p.(buffer := preamble + b));
  }

  /** A boundary followed by anything but a line end or dashes is passed over, with the two bytes behind it. */
  lemma StrayBoundarySkipped(cfg: Config, p: Parser, two: seq<byte>, rest: seq<byte>)
    requires BetweenParts(p) && |two| == 2 && two != CRLF && two != DASHES
    ensures Process(cfg, p.(buffer := DashBoundary(cfg) + (two + rest))) == Process(cfg, p.(buffer := rest))
  {
    hide Find, DashBoundary, Turn, FindingPass;
    var b := DashBoundary(cfg) + (two + rest);
    FindingTurn(cfg, p, b);
    BoundaryFound(cfg, two + rest);
    assert FindingPass(cfg, p, b) == BehindBoundary(p, two + rest) by {
      FindingPassAtOnce(cfg, p, two + rest);
    }
    assert (two + rest)[..2] == two && (two + rest)[2..] == rest;
    OneTurn(cfg, p.(buffer := b));
  }

  lemma FindingPassAtOnce(cfg: Config, p: Parser, rest: seq<byte>)
    ensures FindingPass(cfg, p, DashBoundary(cfg) + rest) == BehindBoundary(p, rest)
  {
    hide Find, DashBoundary;
    BoundaryFound(cfg, rest);
  }

  /** A message with text before its first boundary and behind its last is parsed as if it stood alone. */
  lemma SurroundingsIgnored(cfg: Config, p: Parser, parts: seq<Part>, preamble: seq<byte>, epilogue: seq<byte>)
    requires BetweenParts(p) && AllLegal(cfg, parts) && FileSystemWorks(cfg) && p.parts + |parts| <= cfg.maxParts
    requires Find(preamble + DashBoundary(cfg), DashBoundary(cfg)) == Some(|preamble|)
    ensures Process(cfg, p.(buffer := preamble + (MessageBytes(cfg, parts) + epilogue))) ==
            Process(cfg, p.(buffer := MessageBytes(cfg, parts)))
  {
    hide Process, PartsBytes, AfterParts, Find;
    AppendAssoc(DashBoundary(cfg), PartsBytes(cfg, parts), epilogue);
    PreambleSkipped(cfg, p, preamble, PartsBytes(cfg, parts) + epilogue);
    PartsParsedBefore(cfg, p, parts, epilogue);
    PartsParsed(cfg, p, parts);
  }

  // ---------- The cuts that are seen ----------

  /**
   Whether the parser notices a cut after n bytes of a message: when it falls behind a boundary and before
   the two bytes that say what follows, or leaves more than 8192 bytes of a header block.
   */
  predicate CutSeen(cfg: Config, parts: seq<Part>, n: nat)
    decreases |parts|
  {
    var b := |DashBoundary(cfg)|;
    if n < b then false
    else if n < b + 2 then true
    else if parts == [] then false
    else if n < b + 2 + |parts[0].block| + 4 then n - b - 2 > 8192
    else
      var next := b + 2 + |parts[0].block| + 4 + |parts[0].content| + 2;
      n >= next && CutSeen(cfg, parts[1..], n - next)
  }

  /** What stands between two boundaries. */
  function Between(part: Part): seq<byte> {
    CRLF + (part.block + (CRLF + CRLF + (part.content + CRLF)))
  }

  /** No boundary hides inside a part, not even one that no CRLF precedes. */
  ghost predicate NoStray(cfg: Config, parts: seq<Part>) {
    forall i :: 0 <= i < |parts| ==>
      Find(Between(parts[i]) + DashBoundary(cfg), DashBoundary(cfg)) == Some(|Between(parts[i])|)
  }

  lemma FindCut(s: seq<byte>, pattern: seq<byte>, n: nat)
    requires Find(s, pattern).Some? && n < Find(s, pattern).value + |pattern| && n <= |s|
    ensures Find(s[..n], pattern).None?
  {
    hide Find;
    assert s[..n] + s[n..] == s;
    if Find(s[..n], pattern).Some? {
      FindStays(s[..n], s[n..], pattern);
    }
  }

  /** Each part is a boundary, what stands before the next one, and the message of the parts behind it. */
  lemma Layout(cfg: Config, parts: seq<Part>)
    requires parts != []
    ensures PartsBytes(cfg, parts) == Between(parts[0]) + MessageBytes(cfg, parts[1..])
  {
    hide DashBoundary, MessageBytes;
    var part, rest := parts[0], MessageBytes(cfg, parts[1..]);
    assert Delimiter(cfg) + PartsBytes(cfg, parts[1..]) == CRLF + rest by {
      AppendAssoc(CRLF, DashBoundary(cfg), PartsBytes(cfg, parts[1..]));
      assert rest == DashBoundary(cfg) + PartsBytes(cfg, parts[1..]) by {
        MessageIs(cfg, parts[1..]);
      }
    }
    AppendAssoc(part.content, CRLF, rest);
    AppendAssoc(CRLF + CRLF, part.content + CRLF, rest);
    AppendAssoc(part.block, CRLF + CRLF + (part.content + CRLF), rest);
    AppendAssoc(CRLF, part.block + (CRLF + CRLF + (part.content + CRLF)), rest);
  }

  lemma MessageIs(cfg: Config, parts: seq<Part>)
    ensures MessageBytes(cfg, parts) == DashBoundary(cfg) + PartsBytes(cfg, parts)
  {
  }

  /** A body cut short waits. */
  lemma ContentWaits(cfg: Config, p: Parser, part: Part, t: seq<byte>)
    requires BetweenParts(p) && LegalPart(cfg, part) && FileSystemWorks(cfg)
    requires |t| < |part.content + Delimiter(cfg)| && t == (part.content + Delimiter(cfg))[..|t|]
    ensures WaitsForMore(cfg, BodyStart(cfg, p, part).(buffer := t))
  {
    hide Find, Delimiter, Fail, CloseCurrent, OpenTempFile, DashBoundary;
    FindCut(part.content + Delimiter(cfg), Delimiter(cfg), |t|);
  }

  /** A header block cut short waits, unless it is too long, which fails the parse. */
  lemma HeadersWait(cfg: Config, p: Parser, part: Part, s: seq<byte>)
    requires BetweenParts(p) && LegalPart(cfg, part)
    requires |s| < |part.block| + 4 && s == (part.block + (CRLF + CRLF))[..|s|]
    ensures var q := p.(buffer := s, phase := ReadingHeaders);
            if |s| > MAX_HEADERS then Process(cfg, q).failed else WaitsForMore(cfg, q)
  {
    hide Find, Delimiter, CloseCurrent, OpenTempFile, DashBoundary, AppendBody;
    FindCut(part.block + (CRLF + CRLF), CRLF + CRLF, |s|);
  }

  lemma WaitsOn(cfg: Config, p: Parser)
    requires p.buffer != [] && !p.failed && Turn(cfg, p).1
    ensures WaitsForMore(cfg, p) == WaitsForMore(cfg, Turn(cfg, p).0)
  {
    hide Turn, Find;
  }

  /** A whole part in the buffer is passed over. */
  lemma PartPassed(cfg: Config, p: Parser, part: Part, rest: seq<byte>)
    requires BetweenParts(p) && LegalPart(cfg, part) && FileSystemWorks(cfg) && p.parts < cfg.maxParts
    ensures var tail := CRLF + (part.block + (CRLF + CRLF + (part.content + (Delimiter(cfg) + rest))));
            WaitsForMore(cfg, p.(buffer := DashBoundary(cfg) + tail)) ==
            WaitsForMore(cfg, AfterPart(cfg, p, part).(buffer := DashBoundary(cfg) + rest))
  {
    hide Turn, Find, Delimiter, DashBoundary, AfterPart, BodyStart, LegalPart, WaitsForMore, FileSystemWorks;
    var content := part.content + (Delimiter(cfg) + rest);
    var headers := part.block + (CRLF + CRLF + content);
    BoundaryTurn(cfg, p, headers);
    HeaderTurn(cfg, p, part, content);
    ContentTurn(cfg, p, part, rest);
    StartOpen(cfg, p, part);
    WaitsOn(cfg, p.(buffer := DashBoundary(cfg) + (CRLF + headers)));
    WaitsOn(cfg, p.(buffer := headers, phase := ReadingHeaders));
    WaitsOn(cfg, BodyStart(cfg, p, part).(buffer := content));
  }

  /** A cut inside a part. */
  lemma CutInPart(cfg: Config, p: Parser, part: Part, n: nat)
    requires BetweenParts(p) && LegalPart(cfg, part) && FileSystemWorks(cfg) && p.parts < cfg.maxParts
    requires 2 <= n < |Between(part)| + |DashBoundary(cfg)| && n <= |Between(part) + DashBoundary(cfg)|
    ensures var q := p.(buffer := DashBoundary(cfg) + (Between(part) + DashBoundary(cfg))[..n]);
            if 2 + MAX_HEADERS < n < 2 + |part.block| + 4 then Process(cfg, q).failed else WaitsForMore(cfg, q)
  {
    hide Turn, Find, DashBoundary, AfterPart, BodyStart, LegalPart, WaitsForMore, FileSystemWorks, Process;
    var headers := part.block + (CRLF + CRLF);
    var body := part.content + Delimiter(cfg);
    assert Between(part) + DashBoundary(cfg) == CRLF + (headers + body);
    var s := (headers + body)[..n - 2];
    assert (Between(part) + DashBoundary(cfg))[..n] == CRLF + s;
    BoundaryTurn(cfg, p, s);
    WaitsOn(cfg, p.(buffer := DashBoundary(cfg) + (CRLF + s)));
    OneTurn(cfg, p.(buffer := DashBoundary(cfg) + (CRLF + s)));
    if |s| < |headers| {
      assert s == headers[..|s|];
      HeadersWait(cfg, p, part, s);
    } else {
      var t := s[|headers|..];
      assert t == body[..|t|];
      assert s == part.block + (CRLF + CRLF + t);
      HeaderTurn(cfg, p, part, t);
      WaitsOn(cfg, p.(buffer := s, phase := ReadingHeaders));
      ContentWaits(cfg, p, part, t);
    }
  }

  ghost predicate Parsable(cfg: Config, p: Parser, parts: seq<Part>) {
    && BetweenParts(p) && AllLegal(cfg, parts) && FileSystemWorks(cfg) && p.parts + |parts| <= cfg.maxParts
  }

  lemma RestParsable(cfg: Config, p: Parser, parts: seq<Part>)
    requires Parsable(cfg, p, parts) && parts != []
    ensures LegalPart(cfg, parts[0]) && Parsable(cfg, AfterPart(cfg, p, parts[0]), parts[1..])
    ensures AfterPart(cfg, p, parts[0]).parts == p.parts + 1 && AfterPart(cfg, p, parts[0]).finished == p.finished
  {
    hide LegalPart, FileSystemWorks;
    PartClosed(cfg, p, parts[0]);
  }

  lemma AfterPartsParts(cfg: Config, p: Parser, parts: seq<Part>)
    requires BetweenParts(p)
    ensures AfterParts(cfg, p, parts).parts == p.parts + |parts|
    decreases |parts|
  {
    hide AfterPart;
    if parts != [] {
      PartClosed(cfg, p, parts[0]);
      AfterPartsParts(cfg, AfterPart(cfg, p, parts[0]), parts[1..]);
    }
  }

  /** The bytes up to a cut that falls behind the first part and the boundary after it. */
  lemma CutBehindPart(cfg: Config, parts: seq<Part>, n: nat)
    requires parts != [] && |DashBoundary(cfg)| + |Between(parts[0])| + |DashBoundary(cfg)| <= n <= |MessageBytes(cfg, parts)|
    ensures var k := n - |DashBoundary(cfg)| - |Between(parts[0])|;
            var next := MessageBytes(cfg, parts[1..]);
            var rest := next[|DashBoundary(cfg)|..k];
            var tail := CRLF + (parts[0].block + (CRLF + CRLF + (parts[0].content + (Delimiter(cfg) + rest))));
            && k <= |next|
            && MessageBytes(cfg, parts)[..n] == DashBoundary(cfg) + tail
            && DashBoundary(cfg) + rest == next[..k]
            && MessageBytes(cfg, parts)[n..] == next[k..]
  {
    hide DashBoundary, PartsBytes;
    var dash, part := DashBoundary(cfg), parts[0];
    var k := n - |dash| - |Between(part)|;
    var next := MessageBytes(cfg, parts[1..]);
    Layout(cfg, parts);
    assert next[..k] + next[k..] == next;
    var rest := next[|dash|..k];
    assert dash + rest == next[..k];
    TailIs(cfg, part, rest);
  }

  lemma TailIs(cfg: Config, part: Part, rest: seq<byte>)
    ensures CRLF + (part.block + (CRLF + CRLF + (part.content + (Delimiter(cfg) + rest)))) ==
            Between(part) + (DashBoundary(cfg) + rest)
  {
    hide DashBoundary;
    var more := DashBoundary(cfg) + rest;
    AppendAssoc(CRLF, DashBoundary(cfg), rest);
    AppendAssoc(part.content, CRLF, more);
    AppendAssoc(CRLF + CRLF, part.content + CRLF, more);
    AppendAssoc(part.block, CRLF + CRLF + (part.content + CRLF), more);
    AppendAssoc(CRLF, part.block + (CRLF + CRLF + (part.content + CRLF)), more);
  }

  /** The bytes up to a cut before the end of the boundary that follows the first part. */
  lemma CutWithinPart(cfg: Config, parts: seq<Part>, n: nat)
    requires parts != [] && |DashBoundary(cfg)| <= n <= |DashBoundary(cfg)| + |Between(parts[0])| + |DashBoundary(cfg)|
    ensures n <= |MessageBytes(cfg, parts)|
    ensures MessageBytes(cfg, parts)[..n] ==
            DashBoundary(cfg) + (Between(parts[0]) + DashBoundary(cfg))[..n - |DashBoundary(cfg)|]
  {
    hide DashBoundary, PartsBytes, Between;
    Layout(cfg, parts);
    var both := Between(parts[0]) + DashBoundary(cfg);
    AppendAssoc(Between(parts[0]), DashBoundary(cfg), PartsBytes(cfg, parts[1..]));
    assert MessageBytes(cfg, parts) == DashBoundary(cfg) + (both + PartsBytes(cfg, parts[1..]));
  }

  lemma ShortWaits(cfg: Config, p: Parser, b: seq<byte>)
    requires BetweenParts(p) && |b| < |DashBoundary(cfg)|
    ensures WaitsForMore(cfg, p.(buffer := b))
  {
    hide DashBoundary;
  }

  lemma {:induction false} UnseenWaits(cfg: Config, p: Parser, parts: seq<Part>, n: nat)
    requires Parsable(cfg, p, parts) && n < |MessageBytes(cfg, parts)| && !CutSeen(cfg, parts, n)
    ensures WaitsForMore(cfg, p.(buffer := MessageBytes(cfg, parts)[..n]))
    decreases |parts|
  {
    hide DashBoundary, WaitsForMore, AfterPart, LegalPart, FileSystemWorks, Delimiter;
    var dash := |DashBoundary(cfg)|;
    if n < dash {
      ShortWaits(cfg, p, MessageBytes(cfg, parts)[..n]);
    } else if parts != [] {
      RestParsable(cfg, p, parts);
      if n < dash + |Between(parts[0])| + dash {
        CutWithinPart(cfg, parts, n);
        CutInPart(cfg, p, parts[0], n - dash);
      } else {
        var k := n - dash - |Between(parts[0])|;
        CutBehindPart(cfg, parts, n);
        PartPassed(cfg, p, parts[0], MessageBytes(cfg, parts[1..])[dash..k]);
        UnseenWaits(cfg, AfterPart(cfg, p, parts[0]), parts[1..], k);
      }
    }
  }

  /** A parser that has lost the boundary it stands behind misses the part, or the end, that it announces. */
  lemma BoundaryLost(cfg: Config, p: Parser, parts: seq<Part>)
    requires Parsable(cfg, p, parts) && NoStray(cfg, parts) && !p.finished
    ensures var r := Process(cfg, p.(buffer := PartsBytes(cfg, parts)));
            !r.finished || r.parts < p.parts + |parts|
  {
    hide Turn, DashBoundary, Between, AllLegal, FileSystemWorks, Find, FindingPass, AfterPart;
    if parts == [] {
      FindingTurn(cfg, p, DASHES);
      EndLost(cfg, p);
    } else {
      var x, next := Between(parts[0]), MessageBytes(cfg, parts[1..]);
      Layout(cfg, parts);
      MessageIs(cfg, parts[1..]);
      BoundaryFound(cfg, PartsBytes(cfg, parts[1..]));
      FindExtends(x, DashBoundary(cfg), PartsBytes(cfg, parts[1..]));
      FindingTurnSame(cfg, p, x, next);
      SameTurn(cfg, p.(buffer := next), p.(buffer := x + next));
      RestLegal(cfg, parts);
      PartsParsed(cfg, p, parts[1..]);
      AfterPartsParts(cfg, p, parts[1..]);
    }
  }

  lemma RestLegal(cfg: Config, parts: seq<Part>)
    requires AllLegal(cfg, parts) && parts != []
    ensures AllLegal(cfg, parts[1..])
  {
  }

  lemma EndLost(cfg: Config, p: Parser)
    requires !p.finished
    ensures !FindingPass(cfg, p, DASHES).0.finished && !FindingPass(cfg, p, DASHES).1
  {
    if |DashBoundary(cfg)| == 2 {
      BoundaryFound(cfg, []);
      assert DashBoundary(cfg) == DASHES && DASHES + [] == DASHES;
    }
  }

  lemma RestNoStray(cfg: Config, parts: seq<Part>)
    requires NoStray(cfg, parts) && parts != []
    ensures NoStray(cfg, parts[1..])
  {
  }

  /** A boundary with at most one byte behind it is dropped. */
  lemma BoundaryDropped(cfg: Config, p: Parser, rest: seq<byte>)
    requires BetweenParts(p) && |rest| < 2
    ensures Process(cfg, p.(buffer := DashBoundary(cfg) + rest)) == p.(buffer := rest)
  {
    hide Find, DashBoundary, Turn;
    FindingTurn(cfg, p, DashBoundary(cfg) + rest);
    BoundaryFound(cfg, rest);
  }

  lemma {:induction false} SeenLoses(cfg: Config, p: Parser, parts: seq<Part>, n: nat)
    requires Parsable(cfg, p, parts) && NoStray(cfg, parts) && !p.finished
    requires n <= |MessageBytes(cfg, parts)| && CutSeen(cfg, parts, n)
    ensures var q := Process(cfg, p.(buffer := MessageBytes(cfg, parts)[..n]));
            || q.failed
            || var r := Process(cfg, More(q, MessageBytes(cfg, parts)[n..]));
               !r.finished || r.parts < p.parts + |parts|
    decreases |parts|
  {
    hide DashBoundary, AfterPart, LegalPart, FileSystemWorks, Delimiter, Process, NoStray;
    var dash, bytes := |DashBoundary(cfg)|, MessageBytes(cfg, parts);
    if n < dash + 2 {
      var rest := PartsBytes(cfg, parts)[..n - dash];
      assert bytes[..n] == DashBoundary(cfg) + rest;
      assert rest + bytes[n..] == PartsBytes(cfg, parts);
      BoundaryDropped(cfg, p, rest);
      BoundaryLost(cfg, p, parts);
    } else {
      RestParsable(cfg, p, parts);
      if n < dash + |Between(parts[0])| + dash {
        CutWithinPart(cfg, parts, n);
        CutInPart(cfg, p, parts[0], n - dash);
      } else {
        var k := n - dash - |Between(parts[0])|;
        CutBehindPart(cfg, parts, n);
        PartParsed(cfg, p, parts[0], MessageBytes(cfg, parts[1..])[dash..k]);
        RestNoStray(cfg, parts);
        SeenLoses(cfg, AfterPart(cfg, p, parts[0]), parts[1..], k);
      }
    }
  }

  lemma StartInv(cfg: Config)
    ensures Inv(cfg, START)
  {
  }

  /** A cut that is not seen. */
  lemma UnseenCut(cfg: Config, parts: seq<Part>, n: nat, m: nat)
    requires Parsable(cfg, START, parts) && |MessageBytes(cfg, parts)| <= cfg.maxTotalSize
    requires n <= m <= |MessageBytes(cfg, parts)| && !CutSeen(cfg, parts, n)
    ensures var bytes := MessageBytes(cfg, parts);
            Feed(cfg, Feed(cfg, START, bytes[..n]), bytes[n..m]) == Feed(cfg, START, bytes[..m])
  {
    hide Feed, MessageBytes, Parsable, Inv, CutSeen, CleanCut;
    var bytes := MessageBytes(cfg, parts);
    var a, b := bytes[..n], bytes[n..m];
    assert a + b == bytes[..m];
    if n < |bytes| {
      StartInv(cfg);
      StartClean(cfg, parts, n);
      CleanCutUnseen(cfg, START, a, b);
    } else {
      assert a == bytes && b == [];
      MessageBuffer(cfg, parts);
    }
  }

  lemma StartClean(cfg: Config, parts: seq<Part>, n: nat)
    requires Parsable(cfg, START, parts) && n < |MessageBytes(cfg, parts)| && !CutSeen(cfg, parts, n)
    ensures CleanCut(cfg, START, MessageBytes(cfg, parts)[..n])
  {
    hide WaitsForMore, MessageBytes, Parsable, CutSeen;
    TotalParsable(cfg, parts, n);
    UnseenWaits(cfg, START.(total := n), parts, n);
    assert [] + MessageBytes(cfg, parts)[..n] == MessageBytes(cfg, parts)[..n];
  }

  lemma TotalParsable(cfg: Config, parts: seq<Part>, total: nat)
    requires Parsable(cfg, START, parts)
    ensures Parsable(cfg, START.(total := total), parts)
  {
    hide AllLegal, FileSystemWorks;
  }

  /** What a whole message leaves. */
  lemma MessageBuffer(cfg: Config, parts: seq<Part>)
    requires Parsable(cfg, START, parts) && |MessageBytes(cfg, parts)| <= cfg.maxTotalSize
    ensures var q := Feed(cfg, START, MessageBytes(cfg, parts));
            q.finished && !q.failed && q.parts == |parts| && Feed(cfg, q, []) == q
  {
    hide AllLegal, FileSystemWorks, MessageBytes, AfterParts, Process;
    var b := MessageBytes(cfg, parts);
    var p := START.(total := |b|);
    assert [] + b == b;
    PartsParsed(cfg, p, parts);
    NoneFailed(cfg, p, parts);
    AfterPartsParts(cfg, p, parts);
    KeepsTotal(cfg, p.(buffer := b));
    FeedNothingMore(cfg, Process(cfg, p.(buffer := b)));
  }

  lemma NoneFailed(cfg: Config, p: Parser, parts: seq<Part>)
    requires BetweenParts(p)
    ensures !AfterParts(cfg, p, parts).failed
    decreases |parts|
  {
    hide AfterPart;
    if parts != [] {
      PartClosed(cfg, p, parts[0]);
      NoneFailed(cfg, AfterPart(cfg, p, parts[0]), parts[1..]);
    }
  }

  lemma FeedNothingMore(cfg: Config, p: Parser)
    requires p.buffer == [] && p.total <= cfg.maxTotalSize
    ensures Feed(cfg, p, []) == p
  {
    if !p.failed {
      ProcessNothing(cfg, p);
    }
  }

  /**
   Exactly which cuts of a message matter: a message of legal parts, with no boundary inside one, is parsed
   the same in two feeds as in one if and only if the cut is not seen.
   */
  lemma CutUnseenIff(cfg: Config, parts: seq<Part>, n: nat)
    requires Parsable(cfg, START, parts) && NoStray(cfg, parts) && |MessageBytes(cfg, parts)| <= cfg.maxTotalSize
    requires n <= |MessageBytes(cfg, parts)|
    ensures var bytes := MessageBytes(cfg, parts);
            Feed(cfg, Feed(cfg, START, bytes[..n]), bytes[n..]) == Feed(cfg, START, bytes) <==> !CutSeen(cfg, parts, n)
  {
    hide Process, MessageBytes, Parsable, CutSeen, NoStray;
    var bytes := MessageBytes(cfg, parts);
    var a, b := bytes[..n], bytes[n..];
    assert bytes[..|bytes|] == bytes && bytes[n..|bytes|] == b;
    MessageBuffer(cfg, parts);
    if CutSeen(cfg, parts, n) {
      var p := START.(total := n);
      TotalParsable(cfg, parts, n);
      SeenLoses(cfg, p, parts, n);
      assert [] + a == a;
      var q := Process(cfg, p.(buffer := a));
      KeepsTotal(cfg, p.(buffer := a));
      assert Feed(cfg, START, a) == q;
      if !q.failed {
        ProcessTotal(cfg, More(q, b), |bytes|);
      }
    } else {
      UnseenCut(cfg, parts, n, |bytes|);
    }
  }

  /** A message in any number of pieces, none of whose ends is seen, is parsed as if it came at once. */
  lemma {:induction false} PiecesParsed(cfg: Config, parts: seq<Part>, pieces: seq<seq<byte>>, k: nat)
    requires Parsable(cfg, START, parts) && |MessageBytes(cfg, parts)| <= cfg.maxTotalSize
    requires Concat(pieces) == MessageBytes(cfg, parts) && k <= |pieces|
    requires forall i :: 0 <= i < |pieces| ==> !CutSeen(cfg, parts, |Concat(pieces[..i])|)
    ensures FeedAll(cfg, START, pieces[..k]) == Feed(cfg, START, Concat(pieces[..k]))
  {
    hide MessageBytes, Parsable, CutSeen, Feed;
    var bytes := MessageBytes(cfg, parts);
    assert pieces[..k] + pieces[k..] == pieces;
    ConcatAppend(pieces[..k], pieces[k..]);
    if k == 0 {
      FeedNothingMore(cfg, START);
    } else {
      assert pieces[..k][..k - 1] == pieces[..k - 1];
      ConcatLast(pieces[..k]);
      PiecesParsed(cfg, parts, pieces, k - 1);
      var n, m := |Concat(pieces[..k - 1])|, |Concat(pieces[..k])|;
      assert bytes[..m] == Concat(pieces[..k]) && bytes[..n] == Concat(pieces[..k - 1]) && bytes[n..m] == pieces[k - 1];
      UnseenCut(cfg, parts, n, m);
    }
  }

  /** A message of legal parts is reported part by part however it is cut, if no cut is seen. */
  lemma MessageParsedInPieces(cfg: Config, parts: seq<Part>, pieces: seq<seq<byte>>)
    requires AllLegal(cfg, parts) && FileSystemWorks(cfg) && |parts| <= cfg.maxParts
    requires |MessageBytes(cfg, parts)| <= cfg.maxTotalSize && Concat(pieces) == MessageBytes(cfg, parts)
    requires forall i :: 0 <= i < |pieces| ==> !CutSeen(cfg, parts, |Concat(pieces[..i])|)
    ensures var p := FeedAll(cfg, START, pieces);
            && p.finished && !p.failed
            && p.reports == PartReports(cfg, parts, 0)
            && p.files == PartFiles(cfg, parts, 0)
  {
    hide AllLegal, FileSystemWorks, MessageBytes, Feed, FeedAll, CutSeen, PartReports, PartFiles;
    assert pieces[..|pieces|] == pieces;
    PiecesParsed(cfg, parts, pieces, |pieces|);
    MessageParsed(cfg, parts);
  }
}
