/**
 What paths and patterns look like on paper: splitting is determined by three laws, a pattern's segments by
 their first characters, typed segments by the texts that fit them, and matching by filling a pattern in.
 */
module RouterForms {
  import opened Collections
  import opened Routing = Router

  // ---------- Paths ----------

  lemma {:induction false} SplitFromAtSlash(a: string, b: string, pending: string)
    ensures SplitFrom(a + "/" + b, pending) == SplitFrom(a, pending) + SplitFrom(b, "")
    decreases |a|
  {
    var whole := a + "/" + b;
    if a == "" {
      assert whole[0] == '/' && whole[1..] == b;
    } else {
      assert whole[0] == a[0] && whole[1..] == a[1..] + "/" + b;
      if a[0] == '/' {
        SplitFromAtSlash(a[1..], b, "");
      } else {
        SplitFromAtSlash(a[1..], b, pending + [a[0]]);
      }
    }
  }

  /** A slash separates: what is on its left and what is on its right are split on their own. */
  lemma SplitAtSlash(a: string, b: string)
    ensures Split(a + "/" + b) == Split(a) + Split(b)
  {
    SplitFromAtSlash(a, b, "");
  }

  /** A text without a slash is one segment, and nothing is none. */
  lemma SplitOne(s: string)
    requires '/' !in s
    ensures Split(s) == if s == "" then [] else [s]
  {
    SplitSegment(s, "", "");
    assert s + "" == s && "" + s == s;
  }

  /** These laws leave one way to split. */
  lemma {:induction false} SplitIsDetermined(path: string, other: string -> seq<string>)
    requires forall a, b :: other(a + "/" + b) == other(a) + other(b)
    requires forall s :: '/' !in s ==> other(s) == if s == "" then [] else [s]
    ensures other(path) == Split(path)
    decreases |path|
  {
    if '/' !in path {
      SplitOne(path);
    } else {
      var i := IndexOf(path, '/');
      var a, b := path[..i], path[i + 1..];
      assert path == a + "/" + b;
      SplitAtSlash(a, b);
      SplitOne(a);
      SplitIsDetermined(b, other);
    }
  }

  /** No slash at either end, and none behind another. */
  ghost predicate Tidy(path: string) {
    && (path != "" ==> path[0] != '/' && path[|path| - 1] != '/')
    && forall i :: 0 <= i < |path| - 1 ==> path[i] != '/' || path[i + 1] != '/'
  }

  lemma {:induction false} JoinSplitFrom(path: string, pending: string)
    requires pending != "" && (path != "" ==> path[|path| - 1] != '/')
    requires forall i :: 0 <= i < |path| - 1 ==> path[i] != '/' || path[i + 1] != '/'
    ensures SplitFrom(path, pending) != [] && Join(SplitFrom(path, pending)) == pending + path
    decreases |path|
  {
    if path == "" {
      assert pending + path == pending;
    } else if path[0] == '/' {
      assert path[1] != '/';
      var rest := path[1..][1..];
      assert forall i :: 0 <= i < |rest| ==> rest[i] == path[i + 2];
      assert SplitFrom(path[1..], "") == SplitFrom(rest, "" + [path[1]]);
      JoinSplitFrom(rest, "" + [path[1]]);
      var tail := SplitFrom(path[1..], "");
      assert ([pending] + tail)[1..] == tail;
      assert pending + "/" + (("" + [path[1]]) + rest) == pending + path;
    } else {
      assert forall i :: 0 <= i < |path[1..]| ==> path[1..][i] == path[i + 1];
      JoinSplitFrom(path[1..], pending + [path[0]]);
      assert pending + [path[0]] + path[1..] == pending + path;
    }
  }

  /** What a wildcard captures is the rest of the path as it stands: joining undoes splitting a tidy path. */
  lemma JoinSplit(path: string)
    requires Tidy(path)
    ensures Join(Split(path)) == path
  {
    if path != "" {
      JoinSplitFrom(path[1..], "" + [path[0]]);
      assert "" + [path[0]] + path[1..] == path;
    }
  }

  // ---------- Pattern segments ----------

  lemma ColonAt(name: string, kind: string)
    requires ':' !in name
    ensures IndexOf(name, ':') == |name| && IndexOf(name + ":" + kind, ':') == |name|
  {
    var s := name + ":" + kind;
    assert s[|name|] == ':';
    assert forall i :: 0 <= i < |name| ==> s[i] == name[i];
  }

  lemma BraceForms(name: string, kind: string)
    requires ':' !in name
    ensures ParseTyped("{" + name + "}") == Some(Typed(name, ""))
    ensures ParseTyped("{" + name + ":" + kind + "}") == Some(Typed(name, kind))
  {
    ColonAt(name, kind);
    var one, two, inner := "{" + name + "}", "{" + name + ":" + kind + "}", name + ":" + kind;
    assert one[1..|one| - 1] == name;
    assert two[1..|two| - 1] == inner;
    assert inner[..|name|] == name && inner[|name| + 1..] == kind;
  }

  lemma PrefixForms(name: string)
    ensures Classify(":" + name) == Capture(name, "")
    ensures Classify("*") == Rest("*") && (name != "" ==> Classify("*" + name) == Rest(name))
  {
    assert (":" + name)[1..] == name && ("*" + name)[1..] == name;
  }

  lemma LiteralForms(text: string)
    ensures text == "" || text[0] !in ":*{" ==> Classify(text) == Literal(text)
    ensures text != "" && text[0] == '{' && (text == "{" || text[|text| - 1] != '}') ==> Classify(text) == Literal(text)
  {
    hide IndexOf;
    assert ':' in ":*{" && '*' in ":*{" && '{' in ":*{" by {
      assert ":*{"[0] == ':' && ":*{"[1] == '*' && ":*{"[2] == '{';
    }
  }

  /** ":name", "{name}", "{name:type}", "*" and "*name" capture; every other segment stands for itself. */
  lemma PatternForms(name: string, kind: string, text: string)
    ensures Classify(":" + name) == Capture(name, "")
    ensures ':' !in name ==> Classify("{" + name + "}") == Capture(name, "")
    ensures ':' !in name ==> Classify("{" + name + ":" + kind + "}") == Capture(name, kind)
    ensures Classify("*") == Rest("*") && (name != "" ==> Classify("*" + name) == Rest(name))
    ensures text == "" || text[0] !in ":*{" ==> Classify(text) == Literal(text)
    ensures text != "" && text[0] == '{' && (text == "{" || text[|text| - 1] != '}') ==> Classify(text) == Literal(text)
  {
    PrefixForms(name);
    LiteralForms(text);
    if ':' !in name {
      BraceForms(name, kind);
      hide ParseTyped;
      assert ("{" + name + "}")[0] == '{' && ("{" + name + ":" + kind + "}")[0] == '{';
    }
  }

  // ---------- Typed segments ----------

  const DECIMAL_DIGITS := "0123456789"
  const HEX_DIGITS := "0123456789abcdefABCDEF"

  /** The usual decimal numeral of a number. */
  function Decimal(n: nat): (s: string)
    ensures s != ""
  {
    if n < 10 then [DECIMAL_DIGITS[n]] else Decimal(n / 10) + [DECIMAL_DIGITS[n % 10]]
  }

  function Zeros(k: nat): string {
    seq(k, _ => '0')
  }

  lemma DigitIs(n: nat)
    requires n < 10
    ensures IsDigit(DECIMAL_DIGITS[n]) && DECIMAL_DIGITS[n] as int - '0' as int == n
  {
  }

  lemma DigitOf(c: char) returns (n: nat)
    requires IsDigit(c)
    ensures n < 10 && DECIMAL_DIGITS[n] == c && c as int - '0' as int == n
  {
    n := c as int - '0' as int;
  }

  ghost predicate AllDigits(s: string) {
    forall i :: 0 <= i < |s| ==> IsDigit(s[i])
  }

  lemma {:induction false} ZerosValue(k: nat)
    ensures AllDigits(Zeros(k)) && DecimalValue(Zeros(k)) == 0
  {
    if k > 0 {
      ZerosValue(k - 1);
      assert Zeros(k)[..k - 1] == Zeros(k - 1);
    }
  }

  lemma {:induction false} NumeralValue(k: nat, n: nat)
    ensures AllDigits(Zeros(k) + Decimal(n)) && DecimalValue(Zeros(k) + Decimal(n)) == n
    decreases n
  {
    var last := DECIMAL_DIGITS[n % 10];
    DigitIs(n % 10);
    hide IsDigit, DECIMAL_DIGITS, DecimalValue, Zeros;
    if n < 10 {
      ZerosValue(k);
      DecimalNext(Zeros(k), last);
    } else {
      NumeralValue(k, n / 10);
      DecimalNext(Zeros(k) + Decimal(n / 10), last);
      assert Zeros(k) + Decimal(n) == Zeros(k) + Decimal(n / 10) + [last];
    }
  }

  lemma DecimalNext(s: string, c: char)
    requires AllDigits(s) && IsDigit(c)
    ensures AllDigits(s + [c]) && DecimalValue(s + [c]) == DecimalValue(s) * 10 + (c as int - '0' as int)
  {
    assert (s + [c])[..|s|] == s;
  }

  /** Every string of digits is a numeral with zeros in front. */
  lemma {:induction false} IsNumeral(s: string) returns (k: nat)
    requires s != "" && AllDigits(s)
    ensures s == Zeros(k) + Decimal(DecimalValue(s))
    decreases |s|
  {
    hide IsDigit, DECIMAL_DIGITS;
    var last := |s| - 1;
    assert IsDigit(s[last]);
    var d := DigitOf(s[last]);
    assert s == s[..last] + [s[last]];
    if last == 0 {
      k := 0;
      assert DecimalValue(s[..last]) == 0;
      assert s == Zeros(0) + [s[last]];
    } else {
      k := IsNumeral(s[..last]);
      var m := DecimalValue(s[..last]);
      if m == 0 {
        DigitIs(0);
        assert s[..last] == Zeros(k) + ['0'];
        assert Zeros(k) + ['0'] == Zeros(k + 1);
        k := k + 1;
      } else {
        assert Zeros(k) + Decimal(m) + [s[last]] == Zeros(k) + (Decimal(m) + [s[last]]);
      }
    }
  }

  /** A minus sign or none, zeros or none, and a numeral. */
  function Signed(negative: bool, zeros: nat, n: nat): string {
    (if negative then "-" else "") + (Zeros(zeros) + Decimal(n))
  }

  /** The numeral of a number that fits 64 bits with its sign. */
  ghost predicate Numeral64(s: string) {
    exists negative, zeros, n :: s == Signed(negative, zeros, n) && FitsSigned64(negative, n)
  }

  predicate FitsSigned64(negative: bool, n: nat) {
    n <= if negative then 0x8000_0000_0000_0000 else 0x7FFF_FFFF_FFFF_FFFF
  }

  lemma IntKind(s: string)
    ensures FitsKind("int", s) == IsInt64(s)
  {
    assert "int"[0] != "str"[0];
  }

  lemma Int64IsNumeral(s: string)
    requires IsInt64(s)
    ensures Numeral64(s)
  {
    var negative := s != "" && s[0] == '-';
    var digits := if negative then s[1..] else s;
    assert AllDigits(digits) && digits != "" && FitsSigned64(negative, DecimalValue(digits));
    hide IsInt64, DecimalValue, Decimal, Zeros;
    var k := IsNumeral(digits);
    var n := DecimalValue(digits);
    assert negative ==> s == "-" + s[1..];
    assert s == Signed(negative, k, n) && FitsSigned64(negative, n);
  }

  lemma NumeralIsInt64(negative: bool, zeros: nat, n: nat)
    ensures IsInt64(Signed(negative, zeros, n)) <==> FitsSigned64(negative, n)
  {
    hide DecimalValue, Decimal, Zeros;
    NumeralValue(zeros, n);
    var s, digits := Signed(negative, zeros, n), Zeros(zeros) + Decimal(n);
    assert IsDigit(digits[0]);
    if negative {
      assert s[1..] == digits;
    } else {
      assert s == digits;
    }
  }

  /** "int" takes exactly the decimal numerals of 64-bit integers. */
  lemma IntFits(s: string)
    ensures FitsKind("int", s) <==> Numeral64(s)
  {
    hide IsInt64, Signed, FitsSigned64;
    IntKind(s);
    if IsInt64(s) {
      Int64IsNumeral(s);
    }
    if Numeral64(s) {
      var negative, zeros, n :| s == Signed(negative, zeros, n) && FitsSigned64(negative, n);
      NumeralIsInt64(negative, zeros, n);
    }
  }

  ghost predicate AllHex(s: string) {
    forall i :: 0 <= i < |s| ==> s[i] in HEX_DIGITS
  }

  lemma HexDigitIs(c: char)
    ensures IsHexDigit(c) <==> c in HEX_DIGITS
  {
  }

  /** "uuid" takes exactly 8-4-4-4-12 hexadecimal digits in either case. */
  lemma UuidFits(s: string)
    ensures FitsKind("uuid", s) <==>
            exists a, b, c, d, e ::
              && |a| == 8 && |b| == |c| == |d| == 4 && |e| == 12
              && AllHex(a) && AllHex(b) && AllHex(c) && AllHex(d) && AllHex(e)
              && s == a + "-" + b + "-" + c + "-" + d + "-" + e
  {
    hide IsHexDigit, HEX_DIGITS;
    forall x
      ensures IsHexDigit(x) <==> x in HEX_DIGITS
    {
      HexDigitIs(x);
    }
    if FitsKind("uuid", s) {
      var a, b, c, d, e := s[..8], s[9..13], s[14..18], s[19..23], s[24..];
      assert s == a + "-" + b + "-" + c + "-" + d + "-" + e;
      assert AllHex(a) && AllHex(b) && AllHex(c) && AllHex(d) && AllHex(e);
    }
  }

  /** An untyped segment and "str" take anything; a type that is not registered takes nothing. */
  lemma OtherKinds(kind: string, value: string)
    ensures FitsKind("", value) && FitsKind("str", value)
    ensures kind !in ["", "str", "int", "uuid"] ==> !KnownKind(kind) && !FitsKind(kind, value)
    ensures kind in ["", "str", "int", "uuid"] ==> KnownKind(kind)
  {
  }

  /** A typed segment is refused if its name is empty or its type unknown; no other segment is refused for its type. */
  lemma TypedForms(name: string, kind: string, text: string)
    ensures ':' !in name ==> (TypedOk("{" + name + "}") <==> name != "")
    ensures ':' !in name ==>
              (TypedOk("{" + name + ":" + kind + "}") <==> name != "" && kind in ["", "str", "int", "uuid"])
    ensures text == "" || text[0] != '{' ==> TypedOk(text)
  {
    OtherKinds(kind, "");
    OtherKinds("", "");
    hide KnownKind, IndexOf;
    if ':' !in name {
      BraceForms(name, kind);
    }
  }

  // ---------- Matching ----------

  /** Every capture has a value of its type. */
  ghost predicate Fillable(pattern: seq<string>, params: Params) {
    forall i :: 0 <= i < |pattern| && Classify(pattern[i]).Capture? ==>
      var capture := Classify(pattern[i]);
      capture.name in params && FitsKind(capture.kind, params[capture.name])
  }

  lemma MatchesOneMore(pattern: seq<string>, value: string, rest: seq<string>)
    requires pattern != [] && !IsWildcard(pattern[0]) && SegmentMatches(pattern[0], value)
    requires Matches(pattern[1..], rest)
    ensures Matches(pattern, [value] + rest)
  {
    var p, request := pattern[1..], [value] + rest;
    forall i | 0 <= i < Fixed(pattern)
      ensures SegmentMatches(pattern[i], request[i])
    {
      if i > 0 {
        assert SegmentMatches(p[i - 1], rest[i - 1]);
      }
    }
  }

  /** A pattern matches every request that it becomes when its captures are filled in with values of their types. */
  lemma {:induction false} FilledMatches(pattern: seq<string>, params: Params)
    requires WellFormed(pattern) && Fillable(pattern, params)
    ensures Matches(pattern, Substitute(pattern, params))
    decreases |pattern|
  {
    hide Classify, FitsKind, IsWildcard, Split;
    if pattern != [] {
      WildcardIsRest(pattern[0]);
      var p := pattern[1..];
      if IsWildcard(pattern[0]) {
        assert |pattern| == 1;
      } else {
        assert forall i :: 0 <= i < |p| ==> p[i] == pattern[i + 1];
        FilledMatches(p, params);
        match Classify(pattern[0])
        case Literal(text) => MatchesOneMore(pattern, text, Substitute(p, params));
        case Capture(name, _) => MatchesOneMore(pattern, params[name], Substitute(p, params));
      }
    }
  }

  /** Which segments of a pattern are literals. */
  ghost function LiteralFlags(pattern: seq<string>): seq<bool> {
    seq(|pattern|, i requires 0 <= i < |pattern| => Classify(pattern[i]).Literal?)
  }

  /** A pattern's rank among wildcards is the number of its literal segments. */
  lemma {:induction false} LiteralsCounted(pattern: seq<string>)
    requires WellFormed(pattern)
    ensures Literals(pattern) == multiset(LiteralFlags(pattern))[true]
    decreases |pattern|
  {
    hide Classify, IsWildcard;
    if pattern != [] {
      WildcardIsRest(pattern[0]);
      var p := pattern[1..];
      assert forall i :: 0 <= i < |p| ==> p[i] == pattern[i + 1];
      LiteralsCounted(p);
      assert LiteralFlags(pattern) == [Classify(pattern[0]).Literal?] + LiteralFlags(p);
      if IsWildcard(pattern[0]) {
        assert p == [];
      }
    }
  }

  // ---------- Registration ----------

  /**
   What a registered route answers besides what was answered before: the requests its pattern matches if its
   path has a colon, a star or a brace, and its own path, letter for letter, if not.
   */
  lemma RegisteredAnswers(t: Table, verb: Method, path: string, handler: Handler, method_: Method, request: string)
    ensures Answers(Register(t, verb, path, handler), method_, request) <==>
            || Answers(t, method_, request)
            || (method_ == verb &&
                if ':' in path || '*' in path || '{' in path then Matches(Split(path), Split(request))
                else request == path)
  {
    hide Matches, Split;
    var t' := Register(t, verb, path, handler);
    if IsDynamic(path) {
      var n := |t.dynamic|;
      assert t'.dynamic[n] == Route(verb, Split(path), handler);
      assert forall i: nat :: i < n ==> t'.dynamic[i] == t.dynamic[i];
      assert Serves(t', method_, Split(request), n) <==> method_ == verb && Matches(Split(path), Split(request));
      forall i: nat
        ensures Serves(t, method_, Split(request), i) ==> Serves(t', method_, Split(request), i)
        ensures Serves(t', method_, Split(request), i) && i != n ==> Serves(t, method_, Split(request), i)
      {
      }
    } else {
      forall i: nat
        ensures Serves(t, method_, Split(request), i) <==> Serves(t', method_, Split(request), i)
      {
      }
    }
  }

  lemma {:induction false} SegmentChars(path: string, pending: string, i: nat, c: char)
    requires i < |SplitFrom(path, pending)| && c in SplitFrom(path, pending)[i]
    ensures c in path || c in pending
    decreases |path|
  {
    if path != "" {
      if path[0] == '/' {
        var k := if pending == "" then 0 else 1;
        if i >= k {
          SegmentChars(path[1..], "", i - k, c);
        }
      } else {
        SegmentChars(path[1..], pending + [path[0]], i, c);
      }
    }
  }

  /** A path with anything to capture is registered as a pattern. */
  lemma CapturesAreDynamic(path: string, i: nat)
    requires i < |Split(path)| && !Classify(Split(path)[i]).Literal?
    ensures IsDynamic(path)
  {
    var segment := Split(path)[i];
    SegmentChars(path, "", i, segment[0]);
  }
}
