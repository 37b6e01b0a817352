/**
 The streaming multipart/form-data parser. Temporary files are numbered in the order they are created
 (the source's random names are created exclusively, so they never collide); whether one can be created or
 grow to a size is up to the file system. What a header block says about its part is an uninterpreted
 function. The application's callbacks are a log.
 */
module Multipart {
  import opened Bytes
  import opened Collections

  const CRLF: seq<byte> := ['\r' as int, '\n' as int]
  const DASHES: seq<byte> := ['-' as int, '-' as int]
  const MAX_HEADERS := 8192

  // ---------- Searching ----------

  predicate OccursAt(s: seq<byte>, pattern: seq<byte>, i: nat) {
    i + |pattern| <= |s| && s[i..i + |pattern|] == pattern
  }

  /** The first occurrence of a pattern. */
  function Find(s: seq<byte>, pattern: seq<byte>): (r: Option<nat>)
    ensures r.Some? ==> OccursAt(s, pattern, r.value)
  {
    if |s| < |pattern| then None
    else if s[..|pattern|] == pattern then Some(0)
    else
      match Find(s[1..], pattern)
      case None => None
      case Some(i) =>
        assert s[i + 1..i + 1 + |pattern|] == s[1..][i..i + |pattern|];
        Some(i + 1)
  }

  /** Find returns the least index at which the pattern occurs, if there is one. */
  lemma {:induction false} FindFirst(s: seq<byte>, pattern: seq<byte>, i: nat)
    requires OccursAt(s, pattern, i)
    ensures Find(s, pattern).Some? && Find(s, pattern).value <= i
    decreases |s|
  {
    if s[..|pattern|] != pattern {
      assert i > 0;
      assert s[1..][i - 1..i - 1 + |pattern|] == s[i..i + |pattern|];
      FindFirst(s[1..], pattern, i - 1);
    }
  }

  lemma FindIs(s: seq<byte>, pattern: seq<byte>, i: nat)
    requires OccursAt(s, pattern, i)
    requires forall j :: 0 <= j < i ==> !OccursAt(s, pattern, j)
    ensures Find(s, pattern) == Some(i)
  {
    FindFirst(s, pattern, i);
  }

  // ---------- The parser ----------

  datatype PartHeaders = PartHeaders(name: seq<byte>, filename: seq<byte>, contentType: seq<byte>)

  datatype Config = Config(
    boundary: seq<byte>, maxFileSize: nat, maxFieldSize: nat, maxTotalSize: nat, maxParts: nat,
    hasUploadDir: bool, hasFieldHandler: bool, hasFileHandler: bool,
    parseHeaders: seq<byte> -> PartHeaders,
    canCreate: nat -> bool,
    canGrow: (nat, nat) -> bool)

  function DashBoundary(cfg: Config): (s: seq<byte>)
    ensures |s| >= 2
  {
    DASHES + cfg.boundary
  }

  /** What ends a body: CRLF--boundary. */
  function Delimiter(cfg: Config): (s: seq<byte>)
    ensures |s| >= 4
  {
    CRLF + DashBoundary(cfg)
  }

  datatype Phase = FindingBoundary | ReadingHeaders | ReadingBody

  datatype Report =
    | Field(name: seq<byte>, value: seq<byte>)
    | File(name: seq<byte>, filename: seq<byte>, contentType: seq<byte>, path: nat)

  /** `path` is the open temporary file of the current part; `files` the temporary files that exist. */
  datatype Parser = Parser(
    phase: Phase, buffer: seq<byte>, headers: PartHeaders, fieldValue: seq<byte>, path: Option<nat>, size: nat,
    total: nat, parts: nat, failed: bool, finished: bool,
    files: map<nat, seq<byte>>, created: nat, reports: seq<Report>)

  const NO_HEADERS := PartHeaders([], [], [])
  const START := Parser(FindingBoundary, [], NO_HEADERS, [], None, 0, 0, 0, false, false, map[], 0, [])

  /** Closes and deletes the current part's file, if it has one. */
  function Discard(p: Parser): Parser {
    p.(files := if p.path.Some? then p.files - {p.path.value} else p.files,
       path := None, headers := NO_HEADERS, fieldValue := [], size := 0)
  }

  function Fail(p: Parser): Parser {
    if p.failed then p else Discard(p).(failed := true, buffer := [])
  }

  function Contents(p: Parser, f: nat): seq<byte> {
    if f in p.files then p.files[f] else []
  }

  /** Adds data to the current part; a part that outgrows its limit, or a file that cannot grow, fails the parse. */
  function AppendBody(cfg: Config, p: Parser, data: seq<byte>): Parser {
    var size := p.size + |data|;
    match p.path
    case Some(f) =>
      if size > cfg.maxFileSize || !cfg.canGrow(f, size) then Fail(p)
      else p.(size := size, files := p.files[f := Contents(p, f) + data])
    case None =>
      if size > cfg.maxFieldSize then Fail(p) else p.(size := size, fieldValue := p.fieldValue + data)
  }

  /** Reports the finished part; a file that is not handed over is deleted. */
  function CloseCurrent(cfg: Config, p: Parser): Parser {
    match p.path
    case Some(f) =>
      if cfg.hasFileHandler && p.headers.name != [] then
        Discard(p.(path := None,
                   reports := p.reports + [File(p.headers.name, p.headers.filename, p.headers.contentType, f)]))
      else Discard(p)
    case None =>
      if cfg.hasFieldHandler && p.headers.name != [] then
        Discard(p.(reports := p.reports + [Field(p.headers.name, p.fieldValue)]))
      else Discard(p)
  }

  function OpenTempFile(cfg: Config, p: Parser): Parser {
    if cfg.hasUploadDir && cfg.canCreate(p.created) then
      p.(path := Some(p.created), files := p.files[p.created := []], created := p.created + 1)
    else Fail(p)
  }

  /** A part begins behind its header block, which ends at `pos`. */
  function StartPart(cfg: Config, p: Parser, pos: nat): (r: Parser)
    requires pos + 4 <= |p.buffer|
    ensures !r.failed ==> |r.buffer| < |p.buffer|
  {
    var headers := cfg.parseHeaders(p.buffer[..pos]);
    var p1 := p.(headers := headers, buffer := p.buffer[pos + 4..], size := 0);
    if headers.filename != [] then
      var p2 := OpenTempFile(cfg, p1);
      if p2.failed then p2 else p2.(phase := ReadingBody)
    else p1.(fieldValue := [], phase := ReadingBody)
  }

  /** One pass of the loop: the new state, and whether the loop goes on. */
  function Turn(cfg: Config, p: Parser): (r: (Parser, bool))
    requires p.buffer != [] && !p.failed
    ensures r.1 ==> |r.0.buffer| < |p.buffer|
  {
    var b := p.buffer;
    match p.phase
    case FindingBoundary => (
      var dash := DashBoundary(cfg);
      match Find(b, dash)
      case None => (p.(buffer := if |b| > |dash| then b[|b| - |dash|..] else b), false)
      case Some(pos) =>
        var rest := b[pos + |dash|..];
        if |rest| < 2 then (p.(buffer := rest), false)
        else if rest[..2] == DASHES then (p.(finished := true, buffer := []), false)
        else if rest[..2] == CRLF then (p.(buffer := rest[2..], phase := ReadingHeaders), true)
        else (p.(buffer := rest[2..]), true))
    case ReadingHeaders => (
      match Find(b, CRLF + CRLF)
      case None => (if |b| > MAX_HEADERS then Fail(p) else p, false)
      case Some(pos) =>
        var p1 := p.(parts := p.parts + 1);
        if p1.parts > cfg.maxParts then (Fail(p1), false)
        else var p2 := StartPart(cfg, p1, pos); (p2, !p2.failed))
    case ReadingBody =>
      var delimiter := Delimiter(cfg);
      match Find(b, delimiter)
      case None =>
        if |b| > |delimiter| then
          var n := |b| - |delimiter|;
          var p1 := AppendBody(cfg, p, b[..n]);
          (if p1.failed then p1 else p1.(buffer := b[n..]), false)
        else (p, false)
      case Some(pos) =>
        var p1 := AppendBody(cfg, p, b[..pos]);
        if p1.failed then (p1, false)
        else (CloseCurrent(cfg, p1).(buffer := b[pos + 2..], phase := FindingBoundary), true)
  }

  function Process(cfg: Config, p: Parser): Parser
    decreases |p.buffer|
  {
    if p.buffer == [] || p.failed then p
    else var (p', goes) := Turn(cfg, p); if goes then Process(cfg, p') else p'
  }

  function Feed(cfg: Config, p: Parser, chunk: seq<byte>): Parser {
    if p.failed then p
    else
      var p1 := p.(total := p.total + |chunk|);
      if p1.total > cfg.maxTotalSize then Fail(p1) else Process(cfg, p1.(buffer := p1.buffer + chunk))
  }

  function End(cfg: Config, p: Parser): Parser {
    if p.failed then p else Discard(Process(cfg, p))
  }

  // ---------- Temporary files and limits ----------

  function ReportedFiles(reports: seq<Report>): set<nat> {
    if reports == [] then {}
    else
      var last := reports[|reports| - 1];
      ReportedFiles(reports[..|reports| - 1]) + (if last.File? then {last.path} else {})
  }

  lemma ReportedFilesAdd(reports: seq<Report>, r: Report)
    ensures ReportedFiles(reports + [r]) == ReportedFiles(reports) + (if r.File? then {r.path} else {})
  {
    assert (reports + [r])[..|reports|] == reports;
  }

  ghost predicate ReportsDistinct(reports: seq<Report>) {
    forall i, j :: 0 <= i < j < |reports| && reports[i].File? && reports[j].File? ==> reports[i].path != reports[j].path
  }

  /** The temporary files that exist are those reported and the current part's, which is not reported. */
  ghost predicate FilesOwned(p: Parser) {
    && p.files.Keys == ReportedFiles(p.reports) + (if p.path.Some? then {p.path.value} else {})
    && (p.path.Some? ==> p.path.value !in ReportedFiles(p.reports))
    && (forall f :: f in p.files ==> f < p.created)
    && ReportsDistinct(p.reports)
  }

  ghost predicate ReportFits(cfg: Config, files: map<nat, seq<byte>>, r: Report) {
    match r
    case Field(_, value) => |value| <= cfg.maxFieldSize
    case File(_, _, _, f) => f in files && |files[f]| <= cfg.maxFileSize
  }

  /** What was reported respects the limits, and so does the part in progress. */
  ghost predicate InLimits(cfg: Config, p: Parser) {
    && (forall i :: 0 <= i < |p.reports| ==> ReportFits(cfg, p.files, p.reports[i]))
    && (match p.path
        case Some(f) => p.phase.ReadingBody? && !p.failed && f in p.files && |p.files[f]| == p.size <= cfg.maxFileSize
        case None => p.phase.ReadingBody? && !p.failed ==> |p.fieldValue| == p.size <= cfg.maxFieldSize)
    && |p.reports| + (if p.phase.ReadingBody? && !p.failed then 1 else 0) <= p.parts
    && (!p.failed ==> p.parts <= cfg.maxParts && p.total <= cfg.maxTotalSize)
    && |p.reports| <= cfg.maxParts
  }

  ghost predicate Inv(cfg: Config, p: Parser) {
    FilesOwned(p) && InLimits(cfg, p)
  }

  lemma {:induction false} ReportedFilesHas(reports: seq<Report>, i: nat)
    requires i < |reports| && reports[i].File?
    ensures reports[i].path in ReportedFiles(reports)
    decreases |reports|
  {
    var n := |reports| - 1;
    if i < n {
      ReportedFilesHas(reports[..n], i);
    }
  }

  lemma DiscardKeeps(cfg: Config, p: Parser)
    requires Inv(cfg, p)
    ensures Inv(cfg, Discard(p)) && Discard(p).path.None?
  {
    var p' := Discard(p);
    forall i | 0 <= i < |p.reports|
      ensures ReportFits(cfg, p'.files, p.reports[i])
    {
      assert ReportFits(cfg, p.files, p.reports[i]);
      if p.reports[i].File? {
        ReportedFilesHas(p.reports, i);
      }
    }
  }

  /** A failure, whatever counter it was that went over its limit. */
  lemma FailKeeps(cfg: Config, p: Parser, total: nat, parts: nat)
    requires Inv(cfg, p) && !p.failed && parts >= p.parts
    ensures Inv(cfg, Fail(p.(total := total, parts := parts)))
  {
    DiscardKeeps(cfg, p);
  }

  lemma AppendKeeps(cfg: Config, p: Parser, data: seq<byte>)
    requires Inv(cfg, p) && !p.failed && p.phase.ReadingBody?
    ensures Inv(cfg, AppendBody(cfg, p, data))
  {
    FailKeeps(cfg, p, p.total, p.parts);
    var p' := AppendBody(cfg, p, data);
    if !p'.failed {
      forall i | 0 <= i < |p.reports|
        ensures ReportFits(cfg, p'.files, p.reports[i])
      {
        assert ReportFits(cfg, p.files, p.reports[i]);
        if p.reports[i].File? {
          ReportedFilesHas(p.reports, i);
        }
      }
    }
  }

  lemma CloseKeeps(cfg: Config, p: Parser, buffer: seq<byte>)
    requires Inv(cfg, p) && !p.failed && p.phase.ReadingBody?
    ensures Inv(cfg, CloseCurrent(cfg, p).(buffer := buffer, phase := FindingBoundary))
  {
    hide ReportedFiles;
    DiscardKeeps(cfg, p);
    if p.headers.name != [] {
      if p.path.Some? {
        var r := File(p.headers.name, p.headers.filename, p.headers.contentType, p.path.value);
        ReportedFilesAdd(p.reports, r);
        forall i | 0 <= i < |p.reports| && p.reports[i].File?
          ensures p.reports[i].path != r.path
        {
          ReportedFilesHas(p.reports, i);
        }
      } else {
        ReportedFilesAdd(p.reports, Field(p.headers.name, p.fieldValue));
      }
    }
  }

  lemma OpenKeeps(cfg: Config, p: Parser)
    requires Inv(cfg, p) && !p.failed && p.phase.ReadingHeaders? && p.parts < cfg.maxParts
    ensures var p' := OpenTempFile(cfg, p.(parts := p.parts + 1, size := 0));
            if p'.failed then Inv(cfg, p') else Inv(cfg, p'.(phase := ReadingBody))
  {
    FailKeeps(cfg, p.(size := 0), p.total, p.parts + 1);
  }

  /** The fields a pass may change without a part being touched. */
  lemma SameParts(cfg: Config, p: Parser, q: Parser)
    requires Inv(cfg, p) && p.path.None? && !p.failed
    requires q == p.(buffer := q.buffer, finished := q.finished, headers := q.headers, phase := q.phase,
                     fieldValue := q.fieldValue, size := q.size, parts := q.parts, total := q.total)
    requires p.parts <= q.parts <= cfg.maxParts && q.total <= cfg.maxTotalSize
    requires q.phase.ReadingBody? ==> q.parts > |p.reports| && |q.fieldValue| == q.size <= cfg.maxFieldSize
    ensures Inv(cfg, q)
  {
  }

  lemma NewBuffer(cfg: Config, p: Parser, buffer: seq<byte>)
    requires Inv(cfg, p)
    ensures Inv(cfg, p.(buffer := buffer))
  {
  }

  lemma TurnKeeps(cfg: Config, p: Parser)
    requires Inv(cfg, p) && p.buffer != [] && !p.failed
    ensures Inv(cfg, Turn(cfg, p).0)
  {
    hide Inv, Find, AppendBody, CloseCurrent, OpenTempFile, Fail, DashBoundary, Delimiter;
    match p.phase
    case FindingBoundary => FindingKeeps(cfg, p);
    case ReadingHeaders => HeadersKeep(cfg, p);
    case ReadingBody => BodyKeeps(cfg, p);
  }

  lemma FindingKeeps(cfg: Config, p: Parser)
    requires Inv(cfg, p) && p.buffer != [] && !p.failed && p.phase.FindingBoundary?
    ensures Inv(cfg, Turn(cfg, p).0)
  {
    hide Find, FilesOwned;
    SameParts(cfg, p, Turn(cfg, p).0);
  }

  lemma HeadersKeep(cfg: Config, p: Parser)
    requires Inv(cfg, p) && p.buffer != [] && !p.failed && p.phase.ReadingHeaders?
    ensures Inv(cfg, Turn(cfg, p).0)
  {
    hide Find, FilesOwned;
    FailKeeps(cfg, p, p.total, p.parts);
    FailKeeps(cfg, p, p.total, p.parts + 1);
    match Find(p.buffer, CRLF + CRLF)
    case None =>
    case Some(pos) =>
      if p.parts < cfg.maxParts {
        var headers := cfg.parseHeaders(p.buffer[..pos]);
        var p1 := p.(headers := headers, buffer := p.buffer[pos + 4..], size := 0);
        SameParts(cfg, p, p1);
        OpenKeeps(cfg, p1);
        if headers.filename == [] {
          SameParts(cfg, p, p1.(parts := p.parts + 1, fieldValue := [], phase := ReadingBody));
        }
      }
  }

  lemma BodyKeeps(cfg: Config, p: Parser)
    requires Inv(cfg, p) && p.buffer != [] && !p.failed && p.phase.ReadingBody?
    ensures Inv(cfg, Turn(cfg, p).0)
  {
    hide Find, FilesOwned, CloseCurrent, InLimits;
    var b, delimiter := p.buffer, Delimiter(cfg);
    match Find(b, delimiter)
    case None =>
      if |b| > |delimiter| {
        var n := |b| - |delimiter|;
        AppendKeeps(cfg, p, b[..n]);
        NewBuffer(cfg, AppendBody(cfg, p, b[..n]), b[n..]);
      }
    case Some(pos) =>
      AppendKeeps(cfg, p, b[..pos]);
      var p1 := AppendBody(cfg, p, b[..pos]);
      if !p1.failed {
        CloseKeeps(cfg, p1, b[pos + 2..]);
      }
  }

  lemma {:induction false} ProcessKeeps(cfg: Config, p: Parser)
    requires Inv(cfg, p)
    ensures Inv(cfg, Process(cfg, p))
    decreases |p.buffer|
  {
    hide Inv, Turn;
    if p.buffer != [] && !p.failed {
      TurnKeeps(cfg, p);
      var (p', goes) := Turn(cfg, p);
      if goes {
        ProcessKeeps(cfg, p');
      }
    }
  }

  datatype Operation = Feeds(chunk: seq<byte>) | Ends

  function Execute(cfg: Config, p: Parser, ops: seq<Operation>): Parser
    decreases |ops|
  {
    if ops == [] then p
    else Execute(cfg, if ops[0].Feeds? then Feed(cfg, p, ops[0].chunk) else End(cfg, p), ops[1..])
  }

  lemma FeedKeeps(cfg: Config, p: Parser, chunk: seq<byte>)
    requires Inv(cfg, p)
    ensures Inv(cfg, Feed(cfg, p, chunk))
  {
    hide Process;
    if !p.failed {
      var total := p.total + |chunk|;
      FailKeeps(cfg, p, total, p.parts);
      if total <= cfg.maxTotalSize {
        ProcessKeeps(cfg, p.(total := total, buffer := p.buffer + chunk));
      }
    }
  }

  lemma {:induction false} ExecuteKeeps(cfg: Config, p: Parser, ops: seq<Operation>)
    requires Inv(cfg, p)
    ensures Inv(cfg, Execute(cfg, p, ops))
    decreases |ops|
  {
    hide Inv, Feed, Process, Discard;
    if ops != [] {
      if ops[0].Feeds? {
        FeedKeeps(cfg, p, ops[0].chunk);
        ExecuteKeeps(cfg, Feed(cfg, p, ops[0].chunk), ops[1..]);
      } else {
        if !p.failed {
          ProcessKeeps(cfg, p);
          DiscardKeeps(cfg, Process(cfg, p));
        }
        ExecuteKeeps(cfg, End(cfg, p), ops[1..]);
      }
    }
  }

  /**
   Over every run, destroyed at any point: the temporary files left are exactly the reported ones, each
   reported once; every reported value and file is within its limit, and so is their number.
   */
  lemma FilesReportedOrDeleted(cfg: Config, ops: seq<Operation>)
    ensures var p := Discard(Execute(cfg, START, ops));
            && p.files.Keys == ReportedFiles(p.reports)
            && ReportsDistinct(p.reports)
            && (forall i :: 0 <= i < |p.reports| ==> ReportFits(cfg, p.files, p.reports[i]))
            && |p.reports| <= cfg.maxParts
  {
    ExecuteKeeps(cfg, START, ops);
    DiscardKeeps(cfg, Execute(cfg, START, ops));
  }

  // ---------- The parser object ----------

  /**
   The parser with the source's own fields; `files`, `created` and `reports` stand for the file system and
   the application. Each private method computes the function of its name on `Abs()`.
   */
  class MultipartStreamParser {
    const cfg: Config
    var phase: Phase
    var buffer: seq<byte>
    var headers: PartHeaders
    var fieldValue: seq<byte>
    var isOpen: bool              // the current part's file descriptor is open
    var path: Option<nat>         // the temporary file the parser has to delete
    var size: nat
    var total: nat
    var parts: nat
    var failed: bool
    var finished: bool
    var files: map<nat, seq<byte>>
    var created: nat
    var reports: seq<Report>

    function Abs(): Parser
      reads this
    {
      Parser(phase, buffer, headers, fieldValue, path, size, total, parts,
             failed, finished, files, created, reports)
    }

    /** The descriptor is open exactly while the parser owns a file. */
    ghost predicate Tied()
      reads this
    {
      isOpen <==> path.Some?
    }

    ghost predicate Valid()
      reads this
    {
      Tied() && Inv(cfg, Abs())
    }

    constructor (cfg: Config)
      ensures this.cfg == cfg && Abs() == START && Valid()
    {
      this.cfg := cfg;
      phase, buffer, headers, fieldValue := FindingBoundary, [], NO_HEADERS, [];
      isOpen, path, size, total, parts, failed, finished := false, None, 0, 0, 0, false, false;
      files, created, reports := map[], 0, [];
    }

    method DiscardCurrentPart()
      modifies this`isOpen, this`files, this`path, this`headers, this`fieldValue, this`size
      ensures Tied() && Abs() == Discard(old(Abs()))
    {
      isOpen := false;
      files := if path.Some? then files - {path.value} else files;
      path := None;
      headers, fieldValue, size := NO_HEADERS, [], 0;
    }

    method FailParse()
      requires Tied()
      modifies this
      ensures Tied() && failed && Abs() == Fail(old(Abs()))
    {
      if failed {
        return;
      }
      failed := true;
      DiscardCurrentPart();
      buffer := [];
    }

    method AppendToPart(data: seq<byte>) returns (ok: bool)
      requires Tied() && !failed
      modifies this
      ensures Tied() && ok == !failed && Abs() == AppendBody(cfg, old(Abs()), data)
    {
      size := size + |data|;
      if isOpen {
        var f := path.value;
        if size > cfg.maxFileSize || !cfg.canGrow(f, size) {
          FailParse();
          return false;
        }
        files := files[f := (if f in files then files[f] else []) + data];
      } else {
        if size > cfg.maxFieldSize {
          FailParse();
          return false;
        }
        fieldValue := fieldValue + data;
      }
      return true;
    }

    method CloseCurrentPart()
      requires Tied() && !failed
      modifies this
      ensures Tied() && !failed && Abs() == CloseCurrent(cfg, old(Abs()))
    {
      if isOpen {
        isOpen := false;
        if cfg.hasFileHandler && headers.name != [] {
          reports := reports + [File(headers.name, headers.filename, headers.contentType, path.value)];
          path := None;
        }
      } else if cfg.hasFieldHandler && headers.name != [] {
        reports := reports + [Field(headers.name, fieldValue)];
      }
      DiscardCurrentPart();
    }

    method OpenFile() returns (ok: bool)
      requires Tied() && path.None? && !failed
      modifies this
      ensures Tied() && ok == !failed && Abs() == OpenTempFile(cfg, old(Abs()))
    {
      if !cfg.hasUploadDir {
        FailParse();
        return false;
      }
      path := Some(created);
      isOpen := cfg.canCreate(created);
      if !isOpen {
        path := None;
        FailParse();
        return false;
      }
      files := files[created := []];
      created := created + 1;
      return true;
    }

    method FindBoundary() returns (goes: bool)
      requires Tied() && buffer != [] && !failed && phase.FindingBoundary?
      modifies this
      ensures Tied() && (Abs(), goes) == Turn(cfg, old(Abs()))
    {
      hide Find, AppendBody, CloseCurrent, OpenTempFile, Fail;
      var dash := DashBoundary(cfg);
      var pos := Find(buffer, dash);
      if pos.None? {
        if |buffer| > |dash| {
          buffer := buffer[|buffer| - |dash|..];
        }
        return false;
      }
      buffer := buffer[pos.value + |dash|..];
      if |buffer| < 2 {
        return false;
      }
      if buffer[..2] == DASHES {
        finished := true;
        buffer := [];
        return false;
      } else if buffer[..2] == CRLF {
        buffer := buffer[2..];
        phase := ReadingHeaders;
      } else {
        buffer := buffer[2..];
      }
      return true;
    }

    method ReadHeaders() returns (goes: bool)
      requires Tied() && path.None? && buffer != [] && !failed && phase.ReadingHeaders?
      modifies this
      ensures Tied() && (Abs(), goes) == Turn(cfg, old(Abs()))
    {
      hide Find, AppendBody, CloseCurrent, OpenTempFile, Fail, Discard, StartPart;
      var pos := Find(buffer, CRLF + CRLF);
      if pos.None? {
        if |buffer| > MAX_HEADERS {
          FailParse();
        }
        return false;
      }
      parts := parts + 1;
      if parts > cfg.maxParts {
        FailParse();
        return false;
      }
      goes := BeginPart(pos.value);
    }

    method BeginPart(pos: nat) returns (ok: bool)
      requires Tied() && path.None? && !failed && pos + 4 <= |buffer|
      modifies this
      ensures Tied() && ok == !failed && Abs() == StartPart(cfg, old(Abs()), pos)
    {
      hide OpenTempFile, Fail, Discard;
      ghost var p := Abs();
      headers := cfg.parseHeaders(buffer[..pos]);
      buffer := buffer[pos + 4..];
      size := 0;
      assert Abs() == p.(headers := headers, buffer := p.buffer[pos + 4..], size := 0);
      if headers.filename != [] {
        var ok := OpenFile();
        if !ok {
          return false;
        }
      } else {
        fieldValue := [];
      }
      phase := ReadingBody;
      return true;
    }

    method ReadBody() returns (goes: bool)
      requires Tied() && buffer != [] && !failed && phase.ReadingBody?
      modifies this
      ensures Tied() && (Abs(), goes) == Turn(cfg, old(Abs()))
    {
      hide Find, AppendBody, CloseCurrent, OpenTempFile, Fail, Discard;
      var delimiter := Delimiter(cfg);
      var pos := Find(buffer, delimiter);
      var b := buffer;
      if pos.None? {
        if |b| > |delimiter| {
          var n := |b| - |delimiter|;
          var ok := AppendToPart(b[..n]);
          if ok {
            buffer := b[n..];
          }
        }
        return false;
      }
      var ok := AppendToPart(b[..pos.value]);
      if !ok {
        return false;
      }
      CloseCurrentPart();
      buffer := b[pos.value + 2..];
      phase := FindingBoundary;
      return true;
    }

    /** The loop: one pass after another until a pass stops it, the buffer is empty or the parse has failed. */
    method ProcessBuffer()
      requires Valid()
      modifies this
      ensures Valid() && Abs() == Process(cfg, old(Abs()))
    {
      hide Inv, Turn;
      while buffer != [] && !failed
        invariant Valid()
        invariant Process(cfg, Abs()) == Process(cfg, old(Abs()))
        decreases |buffer|
      {
        TurnKeeps(cfg, Abs());
        NoFileBetween(cfg, Abs());
        ghost var before := Abs();
        OneTurn(cfg, before);
        var goes;
        match phase {
          case FindingBoundary => goes := FindBoundary();
          case ReadingHeaders => goes := ReadHeaders();
          case ReadingBody => goes := ReadBody();
        }
        assert Turn(cfg, before).0 == Abs() && Turn(cfg, before).1 == goes;
        if !goes {
          return;
        }
      }
    }

    /** false once the parse has failed; every byte fed counts towards the total. */
    method FeedChunk(chunk: seq<byte>) returns (ok: bool)
      requires Valid()
      modifies this
      ensures Valid() && Abs() == Feed(cfg, old(Abs()), chunk) && ok == !failed
      ensures ok ==> total == old(total) + |chunk| <= cfg.maxTotalSize
    {
      hide Process, Discard, Inv;
      FeedKeeps(cfg, Abs(), chunk);
      if failed {
        return false;
      }
      total := total + |chunk|;
      if total > cfg.maxTotalSize {
        FailParse();
        return false;
      }
      buffer := buffer + chunk;
      FedKeeps(cfg, old(Abs()), chunk);
      ghost var fed := Abs();
      ProcessBuffer();
      KeepsTotal(cfg, fed);
      return !failed;
    }

    /** An unfinished part is dropped: only what was reported is left. */
    method Finish()
      requires Valid()
      modifies this
      ensures Valid() && Abs() == End(cfg, old(Abs()))
      ensures files.Keys == ReportedFiles(reports)
    {
      hide Process, Discard, Inv;
      if failed {
        NoFileAfterFailure(cfg, Abs());
        return;
      }
      ProcessBuffer();
      DiscardKeeps(cfg, Abs());
      DiscardCurrentPart();
      OnlyReported(cfg, Abs());
    }

    /**
     The destructor, at any point: the temporary files left are exactly those handed to the application, each
     with its contents, and each handed over once.
     */
    method Destroy()
      requires Valid()
      modifies this
      ensures Valid() && reports == old(reports)
      ensures files.Keys == ReportedFiles(reports) && ReportsDistinct(reports)
      ensures forall f :: f in files ==> f in old(files) && files[f] == old(files)[f]
    {
      DiscardKeeps(cfg, Abs());
      DiscardCurrentPart();
    }
  }

  /** One pass of the loop: it ends there, or is a pass and some bytes further on. */
  lemma OneTurn(cfg: Config, p: Parser)
    requires p.buffer != [] && !p.failed
    ensures if Turn(cfg, p).1
            then |Turn(cfg, p).0.buffer| < |p.buffer| && Process(cfg, p) == Process(cfg, Turn(cfg, p).0)
            else Process(cfg, p) == Turn(cfg, p).0
  {
    hide Turn;
  }

  /** Between parts no file is open. */
  lemma NoFileBetween(cfg: Config, p: Parser)
    requires Inv(cfg, p)
    ensures !p.phase.ReadingBody? ==> p.path.None?
  {
  }

  lemma NoFileAfterFailure(cfg: Config, p: Parser)
    requires Inv(cfg, p) && p.failed
    ensures p.files.Keys == ReportedFiles(p.reports)
  {
  }

  lemma OnlyReported(cfg: Config, p: Parser)
    requires Inv(cfg, p) && p.path.None?
    ensures p.files.Keys == ReportedFiles(p.reports)
  {
  }

  /** Taking in a chunk within the total keeps the invariant. */
  lemma FedKeeps(cfg: Config, p: Parser, chunk: seq<byte>)
    requires Inv(cfg, p) && !p.failed && p.total + |chunk| <= cfg.maxTotalSize
    ensures Inv(cfg, p.(total := p.total + |chunk|, buffer := p.buffer + chunk))
  {
  }

  lemma TurnKeepsTotal(cfg: Config, p: Parser)
    requires p.buffer != [] && !p.failed
    ensures Turn(cfg, p).0.total == p.total
  {
    hide Find;
  }

  lemma {:induction false} KeepsTotal(cfg: Config, p: Parser)
    ensures Process(cfg, p).total == p.total
    decreases |p.buffer|
  {
    hide Turn;
    if p.buffer != [] && !p.failed {
      TurnKeepsTotal(cfg, p);
      var (p', goes) := Turn(cfg, p);
      if goes {
        KeepsTotal(cfg, p');
      }
    }
  }

  /** A part that outgrows its limit, or a file that the file system will not let grow, fails the parse and is deleted. */
  lemma AppendOutcome(cfg: Config, p: Parser, data: seq<byte>)
    requires !p.failed && (p.path.Some? ==> p.path.value in p.files)
    ensures var q, size := AppendBody(cfg, p, data), p.size + |data|;
            match p.path
            case None => if size <= cfg.maxFieldSize then q.fieldValue == p.fieldValue + data && !q.failed else q.failed
            case Some(f) =>
              if size <= cfg.maxFileSize && cfg.canGrow(f, size)
              then !q.failed && q.files == p.files[f := p.files[f] + data]
              else q.failed && q.files == p.files - {f} && q.reports == p.reports
  {
  }

  /** Without an upload directory, or if the file cannot be created, a file part fails the parse and leaves no file. */
  lemma NoTempFile(cfg: Config, p: Parser, pos: nat)
    requires !p.failed && p.path.None? && pos + 4 <= |p.buffer| && cfg.parseHeaders(p.buffer[..pos]).filename != []
    ensures var q := StartPart(cfg, p, pos);
            if cfg.hasUploadDir && cfg.canCreate(p.created)
            then !q.failed && q.path == Some(p.created) && q.files == p.files[p.created := []]
            else q.failed && q.files == p.files && q.reports == p.reports
  {
  }

  // ---------- Bodies ----------

  lemma {:induction false} NoOccurrence(s: seq<byte>, pattern: seq<byte>, i: nat)
    requires Find(s, pattern).None?
    ensures !OccursAt(s, pattern, i)
  {
    if OccursAt(s, pattern, i) {
      FindFirst(s, pattern, i);
    }
  }

  /** A prefix of a string without the pattern does not have it either. */
  lemma FindPrefix(s: seq<byte>, more: seq<byte>, pattern: seq<byte>)
    requires Find(s + more, pattern).None?
    ensures Find(s, pattern).None?
  {
    if Find(s, pattern).Some? {
      var i := Find(s, pattern).value;
      assert (s + more)[i..i + |pattern|] == s[i..i + |pattern|];
      NoOccurrence(s + more, pattern, i);
    }
  }

  /** How much of a body without a delimiter may be written out: all but a delimiter's length. */
  function Kept(d: seq<byte>, delimiter: seq<byte>): (k: nat)
    ensures k <= |d|
  {
    if |d| > |delimiter| then |d| - |delimiter| else 0
  }

  /** An occurrence in d + c that is not in d lies behind what may be written out of d. */
  lemma OccursBehind(d: seq<byte>, c: seq<byte>, pattern: seq<byte>, i: nat)
    requires Find(d, pattern).None? && OccursAt(d + c, pattern, i)
    ensures var k := Kept(d, pattern); i >= k && OccursAt((d + c)[k..], pattern, i - k)
  {
    hide Find;
    var k := Kept(d, pattern);
    var whole := d + c;
    if i + |pattern| <= |d| {
      assert d[i..i + |pattern|] == whole[i..i + |pattern|];
      NoOccurrence(d, pattern, i);
    }
    assert whole[k..][i - k..i - k + |pattern|] == whole[i..i + |pattern|];
  }

  /** Holding back a delimiter's length is enough: nothing that straddles the cut is missed. */
  lemma FindBehindKept(d: seq<byte>, c: seq<byte>, pattern: seq<byte>)
    requires Find(d, pattern).None?
    ensures var k := Kept(d, pattern);
            match Find((d + c)[k..], pattern)
            case None => Find(d + c, pattern).None?
            case Some(i) => Find(d + c, pattern) == Some(k + i)
  {
    hide Find, OccursAt;
    var k := Kept(d, pattern);
    var whole := d + c;
    var tail := whole[k..];
    match Find(tail, pattern)
    case None =>
      if Find(whole, pattern).Some? {
        var i := Find(whole, pattern).value;
        OccursBehind(d, c, pattern, i);
        NoOccurrence(tail, pattern, i - k);
      }
    case Some(i) =>
      OccursShift(whole, pattern, k, i);
      forall j | 0 <= j < k + i
        ensures !OccursAt(whole, pattern, j)
      {
        if OccursAt(whole, pattern, j) {
          OccursBehind(d, c, pattern, j);
          FindFirst(tail, pattern, j - k);
        }
      }
      FindIs(whole, pattern, k + i);
  }

  lemma OccursShift(s: seq<byte>, pattern: seq<byte>, k: nat, i: nat)
    requires k <= |s| && OccursAt(s[k..], pattern, i)
    ensures OccursAt(s, pattern, k + i)
  {
    assert s[k + i..k + i + |pattern|] == s[k..][i..i + |pattern|];
  }

  /** A parser that has just read a part's headers. */
  ghost predicate AtBodyStart(p: Parser) {
    && p.phase.ReadingBody? && !p.failed && p.buffer == [] && p.size == 0
    && (match p.path
        case None => p.fieldValue == []
        case Some(f) => f in p.files && p.files[f] == [])
  }

  /** The limit and the file system let the part grow to n bytes. */
  ghost predicate CanHold(cfg: Config, p: Parser, n: nat) {
    match p.path
    case None => n <= cfg.maxFieldSize
    case Some(f) => n <= cfg.maxFileSize && forall m :: 0 <= m <= n ==> cfg.canGrow(f, m)
  }

  /** The parser with `x` as the part's contents so far. */
  function Holding(p: Parser, x: seq<byte>): Parser {
    match p.path
    case None => p.(size := |x|, fieldValue := x)
    case Some(f) => p.(size := |x|, files := p.files[f := x])
  }

  /** The parser after the bytes `d` of a body, none of them the delimiter's last: a function of `d` alone. */
  function BodyAfter(cfg: Config, p: Parser, d: seq<byte>): Parser {
    var k := Kept(d, Delimiter(cfg));
    Holding(p, d[..k]).(buffer := d[k..], total := p.total + |d|)
  }

  /** The parser that has found the delimiter at `pos` of `d` and reported the part. */
  function Closed(cfg: Config, p: Parser, d: seq<byte>, pos: nat): Parser
    requires pos + 2 <= |d|
  {
    CloseCurrent(cfg, Holding(p, d[..pos]).(total := p.total + |d|)).(buffer := d[pos + 2..], phase := FindingBoundary)
  }

  lemma AppendHolding(cfg: Config, p: Parser, x: seq<byte>, y: seq<byte>, buffer: seq<byte>, total: nat)
    requires AtBodyStart(p)
    ensures var q := AppendBody(cfg, Holding(p, x).(buffer := buffer, total := total), y);
            if q.failed then !CanHold(cfg, p, |x + y|)
            else q == Holding(p, x + y).(buffer := buffer, total := total)
    ensures p.path.None? && |x + y| > cfg.maxFieldSize ==>
              AppendBody(cfg, Holding(p, x).(buffer := buffer, total := total), y).failed
    ensures p.path.Some? && |x + y| > cfg.maxFileSize ==>
              AppendBody(cfg, Holding(p, x).(buffer := buffer, total := total), y).failed
  {
    hide Fail;
    assert Fail(Holding(p, x).(buffer := buffer, total := total)).failed by {
      FailFails(Holding(p, x).(buffer := buffer, total := total));
    }
  }

  lemma FailFails(p: Parser)
    ensures Fail(p).failed
  {
  }

  /** One pass over a buffer of body bytes, with `x` of the body written out before. */
  lemma BodyTurn(cfg: Config, p: Parser, x: seq<byte>, b: seq<byte>, total: nat)
    requires AtBodyStart(p) && b != []
    ensures var q := Process(cfg, Holding(p, x).(buffer := b, total := total));
            match Find(b, Delimiter(cfg))
            case None =>
              var n := Kept(b, Delimiter(cfg));
              if q.failed then !CanHold(cfg, p, |x + b[..n]|)
              else q == Holding(p, x + b[..n]).(buffer := b[n..], total := total)
            case Some(pos) =>
              if CanHold(cfg, p, |x + b[..pos]|) then
                q == Process(cfg, CloseCurrent(cfg, Holding(p, x + b[..pos]).(total := total))
                                  .(buffer := b[pos + 2..], phase := FindingBoundary))
              else p.path.None? ==> q.failed
  {
    hide Find, AppendBody, CloseCurrent, Delimiter;
    var delimiter := Delimiter(cfg);
    var p1 := Holding(p, x).(buffer := b, total := total);
    match Find(b, delimiter)
    case None =>
      var n := Kept(b, delimiter);
      AppendHolding(cfg, p, x, b[..n], b, total);
      if n == 0 {
        assert x + b[..n] == x;
        assert b[n..] == b;
      }
    case Some(pos) =>
      AppendHolding(cfg, p, x, b[..pos], b, total);
      CloseIgnoresBuffer(cfg, Holding(p, x + b[..pos]).(total := total), b, b[pos + 2..]);
  }

  lemma CutAt(s: seq<byte>, k: nat, n: nat)
    requires k + n <= |s|
    ensures s[..k] + s[k..][..n] == s[..k + n] && s[k..][n..] == s[k + n..]
  {
  }

  lemma TailOf(d: seq<byte>, c: seq<byte>, k: nat)
    requires k <= |d|
    ensures (d + c)[k..] == d[k..] + c && (d + c)[..k] == d[..k]
  {
  }

  lemma KeptSum(d: seq<byte>, c: seq<byte>, delimiter: seq<byte>)
    ensures Kept(d, delimiter) + Kept((d + c)[Kept(d, delimiter)..], delimiter) == Kept(d + c, delimiter)
  {
  }

  /** Feeding body bytes is processing them behind what was held back. */
  lemma FeedBody(cfg: Config, p: Parser, d: seq<byte>, c: seq<byte>)
    requires AtBodyStart(p) && p.total + |d + c| <= cfg.maxTotalSize
    ensures var k := Kept(d, Delimiter(cfg));
            Feed(cfg, BodyAfter(cfg, p, d), c) ==
            Process(cfg, Holding(p, (d + c)[..k]).(buffer := (d + c)[k..], total := p.total + |d + c|))
  {
    hide Process, Delimiter;
    TailOf(d, c, Kept(d, Delimiter(cfg)));
  }

  /** A feed that does not complete the delimiter. */
  lemma BodyGoesOn(cfg: Config, p: Parser, d: seq<byte>, c: seq<byte>)
    requires AtBodyStart(p) && Find(d + c, Delimiter(cfg)).None?
    requires p.total + |d + c| <= cfg.maxTotalSize
    ensures var q := Feed(cfg, BodyAfter(cfg, p, d), c);
            if q.failed then !CanHold(cfg, p, Kept(d + c, Delimiter(cfg))) else q == BodyAfter(cfg, p, d + c)
  {
    hide Find, Delimiter, Process, CanHold, Feed, Holding, Kept;
    var delimiter, whole := Delimiter(cfg), d + c;
    var k := Kept(d, delimiter);
    KeptSum(d, c, delimiter);
    var b := whole[k..];
    FindPrefix(d, c, delimiter);
    FindBehindKept(d, c, delimiter);
    FeedBody(cfg, p, d, c);
    CutAt(whole, k, Kept(b, delimiter));
    if b == [] {
      KeptNothing(delimiter);
      assert whole[..k] == whole[..Kept(whole, delimiter)];
      HoldingOpen(p, whole[..k]);
      ProcessNothing(cfg, Holding(p, whole[..k]).(buffer := b, total := p.total + |whole|));
    } else {
      BodyTurn(cfg, p, whole[..k], b, p.total + |whole|);
    }
  }

  lemma KeptNothing(delimiter: seq<byte>)
    ensures Kept([], delimiter) == 0
  {
  }

  lemma HoldingOpen(p: Parser, x: seq<byte>)
    ensures Holding(p, x).failed == p.failed
  {
  }

  /** A feed that completes the delimiter. */
  lemma BodyCloses(cfg: Config, p: Parser, d: seq<byte>, c: seq<byte>)
    requires AtBodyStart(p) && Find(d, Delimiter(cfg)).None? && Find(d + c, Delimiter(cfg)).Some?
    requires p.total + |d + c| <= cfg.maxTotalSize
    ensures var q := Feed(cfg, BodyAfter(cfg, p, d), c);
            var pos := Find(d + c, Delimiter(cfg)).value;
            if CanHold(cfg, p, pos) then q == Process(cfg, Closed(cfg, p, d + c, pos)) else p.path.None? ==> q.failed
  {
    hide Find, Delimiter, Process, CanHold, Feed, CloseCurrent, Holding, Kept, BodyAfter;
    var delimiter, whole := Delimiter(cfg), d + c;
    var k := Kept(d, delimiter);
    KeptSum(d, c, delimiter);
    var b := whole[k..];
    FindBehindKept(d, c, delimiter);
    FeedBody(cfg, p, d, c);
    BodyTurn(cfg, p, whole[..k], b, p.total + |whole|);
    var i := Find(b, delimiter).value;
    CutAt(whole, k, i);
    CutAt(whole, k, i + 2);
  }

  function FeedAll(cfg: Config, p: Parser, pieces: seq<seq<byte>>): Parser
    decreases |pieces|
  {
    if pieces == [] then p
    else Feed(cfg, FeedAll(cfg, p, pieces[..|pieces| - 1]), pieces[|pieces| - 1])
  }

  lemma ConcatLast(pieces: seq<seq<byte>>)
    requires pieces != []
    ensures Concat(pieces) == Concat(pieces[..|pieces| - 1]) + pieces[|pieces| - 1]
  {
    var n := |pieces| - 1;
    ConcatAppend(pieces[..n], [pieces[n]]);
    assert pieces == pieces[..n] + [pieces[n]];
    assert Concat([pieces[n]]) == pieces[n];
  }

  lemma CanHoldLess(cfg: Config, p: Parser, n: nat, m: nat)
    requires CanHold(cfg, p, n) && m <= n
    ensures CanHold(cfg, p, m)
  {
  }

  /** Body bytes without the delimiter leave a state that does not depend on how they were cut. */
  lemma {:induction false} BodyPieces(cfg: Config, p: Parser, pieces: seq<seq<byte>>)
    requires AtBodyStart(p) && Find(Concat(pieces), Delimiter(cfg)).None?
    requires p.total + |Concat(pieces)| <= cfg.maxTotalSize
    requires CanHold(cfg, p, Kept(Concat(pieces), Delimiter(cfg)))
    ensures FeedAll(cfg, p, pieces) == BodyAfter(cfg, p, Concat(pieces))
    decreases |pieces|
  {
    hide Find, Delimiter, Feed, CanHold, Concat;
    if pieces == [] {
      assert Concat(pieces) == [] by {
        ConcatEmpty();
      }
      BodyAfterNothing(cfg, p);
    } else {
      var front, last := pieces[..|pieces| - 1], pieces[|pieces| - 1];
      ConcatLast(pieces);
      FindPrefix(Concat(front), last, Delimiter(cfg));
      CanHoldLess(cfg, p, Kept(Concat(pieces), Delimiter(cfg)), Kept(Concat(front), Delimiter(cfg)));
      BodyPieces(cfg, p, front);
      BodyGoesOn(cfg, p, Concat(front), last);
    }
  }

  lemma ConcatEmpty()
    ensures Concat([]) == []
  {
  }

  lemma BodyAfterNothing(cfg: Config, p: Parser)
    requires AtBodyStart(p)
    ensures BodyAfter(cfg, p, []) == p
  {
    if p.path.Some? {
      assert p.files[p.path.value := []] == p.files;
    }
  }

  /** The bytes of a body that begins with a feed. */
  lemma BodyFed(cfg: Config, p: Parser, pieces: seq<seq<byte>>, last: seq<byte>)
    requires AtBodyStart(p)
    requires var d := Concat(pieces) + last;
             && Find(Concat(pieces), Delimiter(cfg)).None? && Find(d, Delimiter(cfg)).Some?
             && p.total + |d| <= cfg.maxTotalSize && CanHold(cfg, p, Find(d, Delimiter(cfg)).value)
    ensures var d := Concat(pieces) + last;
            FeedAll(cfg, p, pieces + [last]) == Process(cfg, Closed(cfg, p, d, Find(d, Delimiter(cfg)).value))
  {
    hide Find, Delimiter, Feed, CanHold, Closed, Process, BodyAfter;
    var d := Concat(pieces) + last;
    var pos := Find(d, Delimiter(cfg)).value;
    KeptBeforeDelimiter(Concat(pieces), last, Delimiter(cfg));
    CanHoldLess(cfg, p, pos, Kept(Concat(pieces), Delimiter(cfg)));
    BodyPieces(cfg, p, pieces);
    BodyCloses(cfg, p, Concat(pieces), last);
    assert (pieces + [last])[..|pieces|] == pieces;
  }

  lemma {:induction false} FeedAllFirst(cfg: Config, p: Parser, first: seq<byte>, pieces: seq<seq<byte>>)
    ensures FeedAll(cfg, p, [first] + pieces) == FeedAll(cfg, Feed(cfg, p, first), pieces)
    decreases |pieces|
  {
    hide Feed;
    if pieces == [] {
      assert ([first] + pieces)[..0] == [];
    } else {
      var n := |pieces| - 1;
      FeedAllFirst(cfg, p, first, pieces[..n]);
      assert ([first] + pieces)[..n + 1] == [first] + pieces[..n];
    }
  }

  /** The parser as it was before the bytes of the body that are in its buffer. */
  function BodyBegins(p: Parser): Parser
    requires |p.buffer| <= p.total
  {
    p.(buffer := [], total := p.total - |p.buffer|)
  }

  /**
   However the bytes of a body, up to and with the piece that completes the delimiter, are cut into feeds,
   and however many of them came with the end of the headers, the parser ends in the same state: the part
   closed with exactly the bytes before the first CRLF--boundary.
   */
  lemma BodyIsExact(cfg: Config, p: Parser, pieces: seq<seq<byte>>)
    requires |p.buffer| <= p.total && AtBodyStart(BodyBegins(p))
    requires var d := p.buffer + Concat(pieces);
             && (pieces != [] ==> Find(p.buffer + Concat(pieces[..|pieces| - 1]), Delimiter(cfg)).None?)
             && Find(d, Delimiter(cfg)).Some?
             && p.total + |Concat(pieces)| <= cfg.maxTotalSize && CanHold(cfg, p, Find(d, Delimiter(cfg)).value)
    ensures var d := p.buffer + Concat(pieces);
            FeedAll(cfg, Process(cfg, p), pieces) ==
            Process(cfg, Closed(cfg, BodyBegins(p), d, Find(d, Delimiter(cfg)).value))
  {
    hide Find, Delimiter, CanHold, Closed, Process, AtBodyStart, Concat, BodyBegins, Feed, FeedAll;
    var p0, first := BodyBegins(p), p.buffer;
    FirstFed(cfg, p);
    SameHold(cfg, p, Find(first + Concat(pieces), Delimiter(cfg)).value);
    if pieces == [] {
      ConcatEmpty();
      assert first + [] == first && [] + first == first;
      NothingFound(Delimiter(cfg));
      BodyFed(cfg, p0, [], first);
      assert [] + [first] == [first];
      FeedAllOne(cfg, p0, first);
      FeedAllOne(cfg, Process(cfg, p), first);
    } else {
      BodyFedFirst(cfg, p0, first, pieces);
      FeedAllFirst(cfg, p0, first, pieces);
    }
  }

  lemma BodyFedFirst(cfg: Config, p: Parser, first: seq<byte>, pieces: seq<seq<byte>>)
    requires AtBodyStart(p) && pieces != []
    requires var d := first + Concat(pieces);
             && Find(first + Concat(pieces[..|pieces| - 1]), Delimiter(cfg)).None?
             && Find(d, Delimiter(cfg)).Some?
             && p.total + |d| <= cfg.maxTotalSize && CanHold(cfg, p, Find(d, Delimiter(cfg)).value)
    ensures var d := first + Concat(pieces);
            FeedAll(cfg, p, [first] + pieces) == Process(cfg, Closed(cfg, p, d, Find(d, Delimiter(cfg)).value))
  {
    hide Find, Delimiter, CanHold, Closed, Process, AtBodyStart, Concat, Feed, FeedAll;
    var n := |pieces| - 1;
    var front, last := pieces[..n], pieces[n];
    ConcatLast(pieces);
    ConcatFirst(first, front);
    assert first + (Concat(front) + last) == (first + Concat(front)) + last;
    assert [first] + front + [last] == [first] + pieces;
    BodyFed(cfg, p, [first] + front, last);
  }

  lemma FirstFed(cfg: Config, p: Parser)
    requires |p.buffer| <= p.total <= cfg.maxTotalSize && AtBodyStart(BodyBegins(p))
    ensures Feed(cfg, BodyBegins(p), p.buffer) == Process(cfg, p)
  {
    hide Process;
    assert [] + p.buffer == p.buffer;
  }

  lemma SameHold(cfg: Config, p: Parser, n: nat)
    requires |p.buffer| <= p.total
    ensures CanHold(cfg, BodyBegins(p), n) == CanHold(cfg, p, n)
    ensures BodyBegins(p).total + |p.buffer| == p.total
  {
  }

  lemma NothingFound(pattern: seq<byte>)
    ensures pattern != [] ==> Find([], pattern).None?
  {
  }

  lemma FeedAllOne(cfg: Config, p: Parser, x: seq<byte>)
    ensures FeedAll(cfg, p, [x]) == Feed(cfg, p, x) && FeedAll(cfg, p, []) == p
  {
    hide Feed;
    assert [x][..0] == [];
  }

  lemma ConcatFirst(first: seq<byte>, pieces: seq<seq<byte>>)
    ensures Concat([first] + pieces) == first + Concat(pieces)
  {
    assert ([first] + pieces)[1..] == pieces;
  }

  lemma KeptBeforeDelimiter(d: seq<byte>, c: seq<byte>, pattern: seq<byte>)
    requires Find(d, pattern).None? && Find(d + c, pattern).Some?
    ensures Kept(d, pattern) <= Find(d + c, pattern).value
  {
    FindBehindKept(d, c, pattern);
  }

  /** What the application is told about a closed part. */
  lemma ClosedReport(cfg: Config, p: Parser, d: seq<byte>, pos: nat)
    requires AtBodyStart(p) && pos + 2 <= |d| && p.headers.name != []
    ensures var q := Closed(cfg, p, d, pos);
            && q.path.None?
            && (p.path.None? && cfg.hasFieldHandler ==> q.reports == p.reports + [Field(p.headers.name, d[..pos])])
            && (p.path.Some? && cfg.hasFileHandler ==>
                  && q.reports == p.reports +
                     [File(p.headers.name, p.headers.filename, p.headers.contentType, p.path.value)]
                  && q.files == p.files[p.path.value := d[..pos]])
  {
  }

  lemma ProcessNothing(cfg: Config, p: Parser)
    requires p.buffer == []
    ensures Process(cfg, p) == p
  {
  }

  lemma CloseIgnoresBuffer(cfg: Config, p: Parser, old_: seq<byte>, new_: seq<byte>)
    ensures CloseCurrent(cfg, p.(buffer := old_)).(buffer := new_, phase := FindingBoundary) ==
            CloseCurrent(cfg, p).(buffer := new_, phase := FindingBoundary)
  {
  }
}
