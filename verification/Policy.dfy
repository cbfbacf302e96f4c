/** The write policy of the daemon: reading the rule file and deciding a request
 *  (rtdbd/src/policy.c:28-174, rtdbd/src/policy.h).
 *
 * A file is the text of the policy file.  Text is taken to hold no NUL
 * character, which would end a C string early.
 */
module Policy {
  import opened Common

  const UINT32_MAX: nat := 0xFFFF_FFFF
  const MAX_RULES: nat := 32

  /** fgets fills the 128-byte line buffer with at most 127 characters. */
  const LINE_ROOM: nat := 127

  datatype Rule = Rule(uid: u32, wildcard: bool, partition: u32, minId: u32, maxId: u32)

  datatype Error = TooMany | Fields | Number | Range | LineLength

  datatype Outcome =
    | Loaded(rules: seq<Rule>)
    | Rejected(error: Error, line: nat, rules: seq<Rule>)

  // ---- Decimal numbers ----

  predicate IsDigit(c: char) {
    '0' <= c <= '9'
  }

  function Digit(c: char): nat
    requires IsDigit(c)
  {
    c as int - '0' as int
  }

  predicate AllDigits(s: string) {
    forall i :: 0 <= i < |s| ==> IsDigit(s[i])
  }

  /** parse_u32, from the value v read so far. */
  function ParseFrom(s: string, v: u32): Option<u32>
    decreases |s|
  {
    if s == "" then Some(v)
    else if !IsDigit(s[0]) then None
    else if v * 10 + Digit(s[0]) > UINT32_MAX then None
    else ParseFrom(s[1..], v * 10 + Digit(s[0]))
  }

  function ParseU32(s: string): Option<u32> {
    if s == "" then None else ParseFrom(s, 0)
  }

  method ParseDecimal(s: string) returns (out: Option<u32>)
    ensures out == ParseU32(s)
  {
    if |s| == 0 {
      return None;
    }
    var v := 0;
    for i := 0 to |s|
      invariant 0 <= v <= UINT32_MAX
      invariant ParseFrom(s[i..], v) == ParseFrom(s, 0)
    {
      assert s[i..][1..] == s[i + 1..];
      if s[i] < '0' || s[i] > '9' {
        return None;
      }
      v := v * 10 + Digit(s[i]);
      if v > UINT32_MAX {
        return None;
      }
    }
    out := Some(v);
  }

  /** The number a digit string denotes. */
  function Value(s: string): nat
    requires AllDigits(s)
    decreases |s|
  {
    if s == "" then 0 else Value(s[..|s| - 1]) * 10 + Digit(s[|s| - 1])
  }

  function DigitChar(d: nat): (c: char)
    requires d < 10
    ensures IsDigit(c) && Digit(c) == d
  {
    '0' + d as char
  }

  function Print(n: nat): (s: string)
    ensures s != "" && AllDigits(s) && Value(s) == n
  {
    if n < 10 then [DigitChar(n)]
    else
      var s := Print(n / 10) + [DigitChar(n % 10)];
      assert s[..|s| - 1] == Print(n / 10);
      s
  }

  /** Reading on from v: rejected at the first non-digit or overflow. */
  lemma {:induction false} ParseFromSplit(s: string, c: char, v: u32)
    ensures ParseFrom(s + [c], v)
            == match ParseFrom(s, v)
               case None => None
               case Some(w) => ParseFrom([c], w)
    decreases |s|
  {
    if s == "" {
      assert s + [c] == [c];
    } else {
      assert (s + [c])[1..] == s[1..] + [c];
      if IsDigit(s[0]) && v * 10 + Digit(s[0]) <= UINT32_MAX {
        ParseFromSplit(s[1..], c, v * 10 + Digit(s[0]));
      }
    }
  }

  /** A non-empty text of digits whose value fits in 32 bits. */
  predicate IsNumber(s: string) {
    s != "" && AllDigits(s) && Value(s) <= 0xFFFF_FFFF
  }

  /** parse_u32 accepts exactly the non-empty digit strings whose value fits in
   *  32 bits, and returns that value; checking for overflow digit by digit
   *  rejects no value that fits. */
  lemma ParseIsValue(s: string)
    ensures ParseU32(s) == if IsNumber(s) then Some(Value(s)) else None
  {
    if s != "" {
      DigitsAreValue(s);
    }
  }

  lemma {:induction false} DigitsAreValue(s: string)
    requires s != ""
    ensures ParseFrom(s, 0) == if AllDigits(s) && Value(s) <= UINT32_MAX then Some(Value(s)) else None
    decreases |s|
  {
    var front, c := s[..|s| - 1], s[|s| - 1];
    assert s == front + [c];
    ParseFromSplit(front, c, 0);
    if front != "" {
      DigitsAreValue(front);
    }
    assert AllDigits(s) <==> AllDigits(front) && IsDigit(c);
    assert ParseFrom([c][1..], 0) == Some(0);
  }

  // ---- Cutting and trimming ----

  predicate Blank(c: char) {
    c == ' ' || c == '\t' || c == '\r' || c == '\n'
  }

  predicate FieldBlank(c: char) {
    c == ' ' || c == '\t'
  }

  /** A line is trimmed of four kinds of blanks, a field of two of them. */
  lemma WhichBlanks(c: char)
    ensures Blank(c) <==> c in {' ', '\t', '\r', '\n'}
    ensures FieldBlank(c) <==> c in {' ', '\t'}
  {
  }

  ghost predicate All(s: string, p: char -> bool) {
    forall i :: 0 <= i < |s| ==> p(s[i])
  }

  function TrimLeft(s: string, blank: char -> bool): string
    decreases |s|
  {
    if s != "" && blank(s[0]) then TrimLeft(s[1..], blank) else s
  }

  function TrimRight(s: string, blank: char -> bool): string
    decreases |s|
  {
    if s != "" && blank(s[|s| - 1]) then TrimRight(s[..|s| - 1], blank) else s
  }

  function Trim(s: string, blank: char -> bool): string {
    TrimRight(TrimLeft(s, blank), blank)
  }

  /** trim and trim_field: two index loops that move the ends inwards. */
  method TrimText(s: string, blank: char -> bool) returns (t: string)
    ensures t == Trim(s, blank)
  {
    var lo := 0;
    while lo < |s| && blank(s[lo])
      invariant lo <= |s|
      invariant TrimLeft(s[lo..], blank) == TrimLeft(s, blank)
    {
      assert s[lo..][1..] == s[lo + 1..];
      lo := lo + 1;
    }
    var hi := |s|;
    assert s[lo..hi] == s[lo..];
    while hi > lo && blank(s[hi - 1])
      invariant lo <= hi <= |s|
      invariant TrimRight(s[lo..hi], blank) == TrimRight(s[lo..], blank)
      decreases hi
    {
      assert s[lo..hi][..hi - lo - 1] == s[lo..hi - 1];
      hi := hi - 1;
    }
    t := s[lo..hi];
  }

  /** The text before the first c. */
  function CutAt(s: string, c: char): (front: string)
    ensures |front| <= |s| && front == s[..|front|] && c !in front
    ensures |front| < |s| ==> s[|front|] == c
    decreases |s|
  {
    if s == "" || s[0] == c then "" else [s[0]] + CutAt(s[1..], c)
  }

  lemma {:induction false} CutAfter(a: string, c: char, rest: string)
    requires c !in a
    ensures CutAt(a + [c] + rest, c) == a && CutAt(a, c) == a
    decreases |a|
  {
    if a != "" {
      assert (a + [c] + rest)[1..] == a[1..] + [c] + rest;
      assert forall x :: x in a[1..] ==> x in a;
      CutAfter(a[1..], c, rest);
    }
  }

  lemma {:induction false} TrimLeftPad(pad: string, s: string, blank: char -> bool)
    requires All(pad, blank)
    ensures TrimLeft(pad + s, blank) == TrimLeft(s, blank)
    decreases |pad|
  {
    if pad == "" {
      assert pad + s == s;
    } else {
      assert (pad + s)[1..] == pad[1..] + s;
      TrimLeftPad(pad[1..], s, blank);
    }
  }

  lemma {:induction false} TrimRightPad(s: string, pad: string, blank: char -> bool)
    requires All(pad, blank)
    ensures TrimRight(s + pad, blank) == TrimRight(s, blank)
    decreases |pad|
  {
    if pad == "" {
      assert s + pad == s;
    } else {
      var front := pad[..|pad| - 1];
      assert (s + pad)[..|s + pad| - 1] == s + front;
      TrimRightPad(s, front, blank);
    }
  }

  predicate Bare(s: string, blank: char -> bool) {
    s != "" && !blank(s[0]) && !blank(s[|s| - 1])
  }

  /** Blanks around a text that starts and ends with something else go. */
  lemma TrimPadded(left: string, core: string, right: string, blank: char -> bool)
    requires All(left, blank) && All(right, blank) && (core == "" || Bare(core, blank))
    ensures Trim(left + core + right, blank) == core
  {
    assert left + core + right == left + (core + right);
    TrimLeftPad(left, core + right, blank);
    if core == "" {
      assert core + right == right + "";
      TrimLeftPad(right, "", blank);
    } else {
      TrimRightPad(core, right, blank);
    }
  }

  /** What is left of s between position i and position j. */
  ghost predicate TrimmedTo(s: string, blank: char -> bool, i: nat, j: nat) {
    && i <= j <= |s|
    && (forall k :: 0 <= k < i ==> blank(s[k]))
    && (forall k :: j <= k < |s| ==> blank(s[k]))
    && (i < j ==> !blank(s[i]) && !blank(s[j - 1]))
  }

  /** Trimming takes away all blanks at both ends and nothing else. */
  lemma TrimIsExact(s: string, blank: char -> bool) returns (i: nat, j: nat)
    ensures TrimmedTo(s, blank, i, j) && Trim(s, blank) == s[i..j]
  {
    i := TrimLeftIsExact(s, blank);
    j := TrimRightIsExact(s[i..], blank);
    j := i + j;
  }

  lemma {:induction false} TrimLeftIsExact(s: string, blank: char -> bool) returns (i: nat)
    ensures i <= |s| && TrimLeft(s, blank) == s[i..]
    ensures (forall k :: 0 <= k < i ==> blank(s[k])) && (i < |s| ==> !blank(s[i]))
    decreases |s|
  {
    i := 0;
    if s != "" && blank(s[0]) {
      i := TrimLeftIsExact(s[1..], blank);
      assert s[1..][i..] == s[i + 1..];
      i := i + 1;
    }
  }

  lemma {:induction false} TrimRightIsExact(s: string, blank: char -> bool) returns (j: nat)
    ensures j <= |s| && TrimRight(s, blank) == s[..j]
    ensures (forall k :: j <= k < |s| ==> blank(s[k])) && (j > 0 ==> !blank(s[j - 1]))
    decreases |s|
  {
    j := |s|;
    if s != "" && blank(s[|s| - 1]) {
      j := TrimRightIsExact(s[..|s| - 1], blank);
      assert s[..|s| - 1][..j] == s[..j];
    }
  }

  // ---- One line ----

  /** The parts between colons. */
  function Split(s: string): (parts: seq<string>)
    ensures parts != []
    decreases |s|
  {
    var front := CutAt(s, ':');
    if |front| == |s| then [s] else [front] + Split(s[|front| + 1..])
  }

  function ParseRule(s: string): Result {
    var parts := Split(s);
    if |parts| != 4 then Bad(Fields)
    else RuleOf(Trim(parts[0], FieldBlank), Trim(parts[1], FieldBlank),
                Trim(parts[2], FieldBlank), Trim(parts[3], FieldBlank))
  }

  function RuleOf(f0: string, f1: string, f2: string, f3: string): Result {
    var wildcard := f1 == "*";
    if ParseU32(f0).None? || (!wildcard && ParseU32(f1).None?) || ParseU32(f2).None? || ParseU32(f3).None? then
      Bad(Number)
    else
      var minId, maxId := ParseU32(f2).value, ParseU32(f3).value;
      if minId > maxId then Bad(Range)
      else Add(Rule(ParseU32(f0).value, wildcard, if wildcard then 0 else ParseU32(f1).value, minId, maxId))
  }

  datatype Result = Skip | Add(rule: Rule) | Bad(error: Error)

  /** The parts joined again. */
  function Joined(parts: seq<string>): string {
    if parts == [] then "" else if |parts| == 1 then parts[0] else parts[0] + [':'] + Joined(parts[1..])
  }

  /** The parts hold no colon, and joined by colons they are the text. */
  lemma {:induction false} SplitIsExact(s: string)
    ensures Joined(Split(s)) == s && forall k :: 0 <= k < |Split(s)| ==> ':' !in Split(s)[k]
    decreases |s|
  {
    var front := CutAt(s, ':');
    if |front| < |s| {
      SplitIsExact(s[|front| + 1..]);
      assert Split(s)[1..] == Split(s[|front| + 1..]);
      assert s == front + [':'] + s[|front| + 1..];
    } else {
      assert front == s;
    }
  }

  /** Which lines are rules, and which error the others are: the number of
   *  fields comes first, then whether the trimmed fields are numbers, where the
   *  second may be a star, then the order of the ids. */
  lemma RuleIsRead(s: string)
    ensures var parts := Split(s);
            if |parts| != 4 then ParseRule(s) == Bad(Fields)
            else
              var f := seq(4, i requires 0 <= i < 4 => Trim(parts[i], FieldBlank));
              if !(IsNumber(f[0]) && (f[1] == "*" || IsNumber(f[1])) && IsNumber(f[2]) && IsNumber(f[3])) then
                ParseRule(s) == Bad(Number)
              else if Value(f[2]) > Value(f[3]) then ParseRule(s) == Bad(Range)
              else
                && ParseRule(s).Add?
                && var r := ParseRule(s).rule;
                && r.uid == Value(f[0]) && r.minId == Value(f[2]) && r.maxId == Value(f[3])
                && if f[1] == "*" then r.wildcard && r.partition == 0 else !r.wildcard && r.partition == Value(f[1])
  {
    var parts := Split(s);
    if |parts| == 4 {
      ParseIsValue(Trim(parts[0], FieldBlank));
      ParseIsValue(Trim(parts[1], FieldBlank));
      ParseIsValue(Trim(parts[2], FieldBlank));
      ParseIsValue(Trim(parts[3], FieldBlank));
    }
  }

  /** What the loader sees of a line: what fits the buffer, up to a `#`. */
  function Visible(body: string): string {
    Trim(CutAt(if |body| > LINE_ROOM then body[..LINE_ROOM] else body, '#'), Blank)
  }

  function ParseLine(body: string): Result {
    var s := Visible(body);
    if s == "" then Skip
    else if |body| >= LINE_ROOM then Bad(LineLength)
    else ParseRule(s)
  }

  // ---- The file ----

  function AfterLine(file: string): (rest: string)
    requires file != ""
    ensures |rest| < |file|
  {
    var body := CutAt(file, '\n');
    if |body| < |file| then file[|body| + 1..] else ""
  }

  /** Reading line after line with a given line parser. */
  function LoadFrom(parse: string -> Result, file: string, rules: seq<Rule>, line: nat): Outcome
    decreases |file|, 0
  {
    if file == "" then Loaded(rules)
    else LoadOn(parse, parse(CutAt(file, '\n')), AfterLine(file), rules, line + 1)
  }

  /** Going on after line number `line`, which was read as `result`. */
  function LoadOn(parse: string -> Result, result: Result, rest: string, rules: seq<Rule>, line: nat): Outcome
    decreases |rest|, 1
  {
    match result
    case Skip => LoadFrom(parse, rest, rules, line)
    case Bad(e) => Rejected(e, line, rules)
    case Add(r) =>
      if |rules| >= MAX_RULES then Rejected(TooMany, line, rules)
      else LoadFrom(parse, rest, rules + [r], line)
  }

  /** irt_policy_load */
  function LoadText(file: string): Outcome {
    LoadFrom(ParseLine, file, [], 0)
  }

  // ---- Printed files ----

  /** A rule with eight runs of blanks around its fields and a comment, or a
   *  line without a rule. */
  datatype Item =
    | RuleLine(rule: Rule, pads: seq<string>, comment: string)
    | NoiseLine(blanks: string, comment: string)

  predicate IsComment(s: string) {
    (s == "" || s[0] == '#') && '\n' !in s
  }

  /** Blanks around a rule line, and around a field of it. */
  const LINE_BLANKS := {' ', '\t', '\r'}
  const FIELD_BLANKS := {' ', '\t'}

  ghost predicate MadeOf(s: string, cs: set<char>) {
    forall i :: 0 <= i < |s| ==> s[i] in cs
  }

  ghost predicate PadsOk(pads: seq<string>) {
    |pads| == 8
    && MadeOf(pads[0], LINE_BLANKS) && MadeOf(pads[7], LINE_BLANKS)
    && forall k :: 1 <= k < 7 ==> MadeOf(pads[k], FIELD_BLANKS)
  }

  function PartitionText(r: Rule): string {
    if r.wildcard then "*" else Print(r.partition)
  }

  function Padded(left: string, core: string, right: string): string {
    left + core + right
  }

  function Colon(field: string, rest: string): string {
    field + [':'] + rest
  }

  /** The rule as it stands between the outer blanks. */
  function Core(r: Rule, pads: seq<string>): string
    requires |pads| == 8
  {
    Colon(Padded("", Print(r.uid), pads[1]),
      Colon(Padded(pads[2], PartitionText(r), pads[3]),
        Colon(Padded(pads[4], Print(r.minId), pads[5]),
          Padded(pads[6], Print(r.maxId), ""))))
  }

  function Body(item: Item): string
    requires item.RuleLine? ==> |item.pads| == 8
  {
    match item
    case RuleLine(r, pads, comment) => Padded(pads[0], Core(r, pads), pads[7]) + comment
    case NoiseLine(blanks, comment) => blanks + comment
  }

  /** A rule as the loader stores it: a wildcard leaves the partition 0. */
  predicate Storable(r: Rule) {
    r.minId <= r.maxId && (r.wildcard ==> r.partition == 0)
  }

  ghost predicate ItemOk(item: Item) {
    match item
    case RuleLine(r, pads, comment) =>
      Storable(r) && PadsOk(pads) && IsComment(comment) && |Body(item)| < LINE_ROOM
    case NoiseLine(blanks, comment) => MadeOf(blanks, LINE_BLANKS) && IsComment(comment)
  }

  function EndLine(body: string, rest: string): string {
    body + ['\n'] + rest
  }

  predicate WellPadded(items: seq<Item>) {
    forall i :: 0 <= i < |items| && items[i].RuleLine? ==> |items[i].pads| == 8
  }

  function Lines(items: seq<Item>): (bodies: seq<string>)
    requires WellPadded(items)
  {
    seq(|items|, i requires 0 <= i < |items| => Body(items[i]))
  }

  function Text(bodies: seq<string>): string
    decreases |bodies|
  {
    if bodies == [] then "" else EndLine(bodies[0], Text(bodies[1..]))
  }

  /** What a line was printed from. */
  function Meant(item: Item): Result {
    if item.RuleLine? then Add(item.rule) else Skip
  }

  function RulesIn(results: seq<Result>): seq<Rule>
    decreases |results|
  {
    if results == [] then []
    else (if results[0].Add? then [results[0].rule] else []) + RulesIn(results[1..])
  }

  function Meanings(items: seq<Item>): seq<Result> {
    seq(|items|, i requires 0 <= i < |items| => Meant(items[i]))
  }

  function RulesOf(items: seq<Item>): seq<Rule> {
    RulesIn(Meanings(items))
  }

  // ---- Reading back what was printed ----

  /** Decimal conversion round trip, up to the uint32 limit and no further. */
  lemma PrintedNumberBack(n: nat)
    ensures ParseU32(Print(n)) == if n <= UINT32_MAX then Some(n) else None
  {
    ParseIsValue(Print(n));
  }

  lemma SplitStep(a: string, rest: string)
    requires ':' !in a
    ensures Split(Colon(a, rest)) == [a] + Split(rest)
    ensures Split(a) == [a]
  {
    CutAfter(a, ':', rest);
    assert Colon(a, rest)[|a| + 1..] == rest;
  }

  lemma SplitFour(a: string, b: string, c: string, d: string)
    requires ':' !in a && ':' !in b && ':' !in c && ':' !in d
    ensures Split(Colon(a, Colon(b, Colon(c, d)))) == [a, b, c, d]
  {
    SplitStep(a, Colon(b, Colon(c, d)));
    SplitStep(b, Colon(c, d));
    SplitStep(c, d);
    SplitStep(d, "");
  }

  /** A field: blanks, digits or `*`, blanks. */
  predicate FieldChar(c: char) {
    IsDigit(c) || c == '*' || FieldBlank(c)
  }

  lemma FieldBack(left: string, token: string, right: string)
    requires All(left, FieldBlank) && All(right, FieldBlank)
    requires token != "" && (AllDigits(token) || token == "*")
    ensures FieldOk(left, token, right)
  {
    TrimPadded(left, token, right, FieldBlank);
  }

  lemma RuleBack(r: Rule, pads: seq<string>)
    requires Storable(r) && PadsOk(pads)
    ensures ParseRule(Core(r, pads)) == Add(r)
  {
    FieldsBack(r, pads);
    SplitFour(Padded("", Print(r.uid), pads[1]), Padded(pads[2], PartitionText(r), pads[3]),
              Padded(pads[4], Print(r.minId), pads[5]), Padded(pads[6], Print(r.maxId), ""));
    RuleOfTokens(r);
  }

  lemma RuleOfTokens(r: Rule)
    requires Storable(r)
    ensures RuleOf(Print(r.uid), PartitionText(r), Print(r.minId), Print(r.maxId)) == Add(r)
  {
    PrintedNumberBack(r.uid);
    PrintedNumberBack(r.partition);
    PrintedNumberBack(r.minId);
    PrintedNumberBack(r.maxId);
    assert !r.wildcard ==> IsDigit(PartitionText(r)[0]);
  }

  ghost predicate FieldOk(left: string, token: string, right: string) {
    && Trim(Padded(left, token, right), FieldBlank) == token
    && All(Padded(left, token, right), FieldChar)
    && ':' !in Padded(left, token, right)
  }

  lemma FieldsBack(r: Rule, pads: seq<string>)
    requires PadsOk(pads)
    ensures FieldOk("", Print(r.uid), pads[1]) && FieldOk(pads[2], PartitionText(r), pads[3])
    ensures FieldOk(pads[4], Print(r.minId), pads[5]) && FieldOk(pads[6], Print(r.maxId), "")
  {
    FieldBack("", Print(r.uid), pads[1]);
    FieldBack(pads[2], PartitionText(r), pads[3]);
    FieldBack(pads[4], Print(r.minId), pads[5]);
    FieldBack(pads[6], Print(r.maxId), "");
  }

  predicate RuleChar(c: char) {
    FieldChar(c) || c == ':'
  }

  lemma ColonShape(a: string, rest: string)
    requires All(a, FieldChar) && a != "" && All(rest, RuleChar) && rest != ""
    ensures var s := Colon(a, rest);
            All(s, RuleChar) && s != "" && s[0] == a[0] && s[|s| - 1] == rest[|rest| - 1]
  {
  }

  /** No `#` and no line end in a rule, and it starts and ends with a digit. */
  lemma CoreShape(r: Rule, pads: seq<string>)
    requires PadsOk(pads)
    ensures '#' !in Core(r, pads) && '\n' !in Core(r, pads) && Bare(Core(r, pads), Blank)
  {
    FieldsBack(r, pads);
    var f0, f1 := Padded("", Print(r.uid), pads[1]), Padded(pads[2], PartitionText(r), pads[3]);
    var f2, f3 := Padded(pads[4], Print(r.minId), pads[5]), Padded(pads[6], Print(r.maxId), "");
    assert All(f3, RuleChar);
    ColonShape(f2, f3);
    ColonShape(f1, Colon(f2, f3));
    ColonShape(f0, Colon(f1, Colon(f2, f3)));
    assert f0[0] == Print(r.uid)[0];
    assert f3[|f3| - 1] == Print(r.maxId)[|Print(r.maxId)| - 1];
  }

  lemma CutComment(s: string, comment: string)
    requires '#' !in s && IsComment(comment)
    ensures CutAt(s + comment, '#') == s
  {
    if comment == "" {
      assert s + comment == s;
      CutAfter(s, '#', "");
    } else {
      assert s + comment == s + ['#'] + comment[1..];
      CutAfter(s, '#', comment[1..]);
    }
  }

  /** Every line of a printed file is read as what it was printed from. */
  lemma LineBack(item: Item)
    requires ItemOk(item)
    ensures '\n' !in Body(item)
    ensures ParseLine(Body(item)) == Meant(item)
  {
    match item
    case RuleLine(r, pads, comment) =>
      var core := Core(r, pads);
      CoreShape(r, pads);
      var text := Padded(pads[0], core, pads[7]);
      assert '#' !in text && '\n' !in text;
      CutComment(text, comment);
      TrimPadded(pads[0], core, pads[7], Blank);
      RuleBack(r, pads);
    case NoiseLine(blanks, comment) =>
      NoiseIsSkipped(blanks, comment);
  }

  lemma NoiseIsSkipped(blanks: string, comment: string)
    requires MadeOf(blanks, LINE_BLANKS) && IsComment(comment)
    ensures ParseLine(blanks + comment) == Skip
  {
    var body := blanks + comment;
    if |body| <= LINE_ROOM {
      CutComment(blanks, comment);
      assert blanks == blanks + "" + "";
      TrimPadded(blanks, "", "", Blank);
    } else {
      var seen := body[..LINE_ROOM];
      var cut := CutAt(seen, '#');
      assert forall i :: 0 <= i < |cut| ==> cut[i] == body[i] && cut[i] in cut;
      assert |blanks| < |body| ==> body[|blanks|] == '#';
      assert |cut| <= |blanks|;
      assert cut == cut + "" + "";
      TrimPadded(cut, "", "", Blank);
    }
  }

  ghost predicate Printable(items: seq<Item>) {
    forall i :: 0 <= i < |items| ==> ItemOk(items[i])
  }

  lemma LoadStep(parse: string -> Result, body: string, rest: string, rules: seq<Rule>, line: nat)
    requires '\n' !in body
    ensures LoadFrom(parse, EndLine(body, rest), rules, line)
            == LoadOn(parse, parse(body), rest, rules, line + 1)
  {
    FirstLine(body, rest);
  }

  lemma FirstLine(body: string, rest: string)
    requires '\n' !in body
    ensures CutAt(EndLine(body, rest), '\n') == body && AfterLine(EndLine(body, rest)) == rest
  {
    CutAfter(body, '\n', rest);
    assert EndLine(body, rest)[|body| + 1..] == rest;
  }

  ghost predicate LoadsAs(outcome: Outcome, all: seq<Rule>) {
    if |all| <= 32 then outcome == Loaded(all)
    else outcome.Rejected? && outcome.error == TooMany && outcome.rules == all[..32]
  }

  /** The parser reads each line as the result beside it, and none is an error. */
  ghost predicate ReadsAs(parse: string -> Result, bodies: seq<string>, results: seq<Result>) {
    && |bodies| == |results|
    && forall i :: 0 <= i < |bodies| ==>
         '\n' !in bodies[i] && parse(bodies[i]) == results[i] && !results[i].Bad?
  }

  lemma {:induction false} LinesReadBack(parse: string -> Result, bodies: seq<string>, results: seq<Result>,
                                         rules: seq<Rule>, line: nat)
    requires ReadsAs(parse, bodies, results) && |rules| <= MAX_RULES
    ensures LoadsAs(LoadFrom(parse, Text(bodies), rules, line), rules + RulesIn(results))
    decreases |bodies|
  {
    if bodies == [] {
      assert rules + RulesIn(results) == rules;
    } else {
      var rest := Text(bodies[1..]);
      assert ReadsAs(parse, bodies[1..], results[1..]);
      LoadStep(parse, bodies[0], rest, rules, line);
      if results[0].Skip? {
        assert RulesIn(results) == RulesIn(results[1..]);
        LinesReadBack(parse, bodies[1..], results[1..], rules, line + 1);
      } else {
        var r := results[0].rule;
        assert rules + RulesIn(results) == (rules + [r]) + RulesIn(results[1..]);
        if |rules| < MAX_RULES {
          LinesReadBack(parse, bodies[1..], results[1..], rules + [r], line + 1);
        } else {
          assert (rules + RulesIn(results))[..MAX_RULES] == rules;
        }
      }
    }
  }

  /** Loading a printed file gives back exactly its rules, in order, when there
   *  are at most 32 of them, and otherwise rejects the file as having too many,
   *  keeping the first 32. */
  lemma LoadOfPrinted(items: seq<Item>)
    requires Printable(items)
    ensures LoadsAs(LoadText(Text(Lines(items))), RulesOf(items))
  {
    PrintedReadsAs(items);
    LinesReadBack(ParseLine, Lines(items), Meanings(items), [], 0);
    assert [] + RulesOf(items) == RulesOf(items);
  }

  lemma PrintedReadsAs(items: seq<Item>)
    requires Printable(items)
    ensures ReadsAs(ParseLine, Lines(items), Meanings(items))
  {
    forall i | 0 <= i < |items|
      ensures '\n' !in Lines(items)[i] && ParseLine(Lines(items)[i]) == Meanings(items)[i]
    {
      LineBack(items[i]);
    }
  }

  function AllLines(file: string): seq<string>
    decreases |file|
  {
    if file == "" then [] else [CutAt(file, '\n')] + AllLines(AfterLine(file))
  }

  function Results(parse: string -> Result, bodies: seq<string>): (results: seq<Result>)
    ensures |results| == |bodies|
    decreases |bodies|
  {
    if bodies == [] then [] else [parse(bodies[0])] + Results(parse, bodies[1..])
  }

  predicate NoneBad(results: seq<Result>) {
    forall i :: 0 <= i < |results| ==> !results[i].Bad?
  }

  lemma ConsResult(first: Result, tail: seq<Result>)
    ensures RulesIn([first] + tail) == (if first.Add? then [first.rule] else []) + RulesIn(tail)
    ensures NoneBad([first] + tail) <==> !first.Bad? && NoneBad(tail)
  {
    var all := [first] + tail;
    assert all[1..] == tail;
    assert forall i :: 0 <= i < |tail| ==> all[i + 1] == tail[i];
  }

  /** The outcome of reading lines with these results after `rules`. */
  ghost predicate Complete(outcome: Outcome, rules: seq<Rule>, results: seq<Result>) {
    && (outcome.Loaded? <==> NoneBad(results) && |rules| + |RulesIn(results)| <= 32)
    && (outcome.Loaded? ==> outcome.rules == rules + RulesIn(results))
  }

  lemma CompleteStep(outcome: Outcome, rules: seq<Rule>, first: Result, tail: seq<Result>)
    requires !first.Bad? && Complete(outcome, if first.Add? then rules + [first.rule] else rules, tail)
    ensures Complete(outcome, rules, [first] + tail)
  {
    ConsResult(first, tail);
    if first.Add? {
      assert rules + ([first.rule] + RulesIn(tail)) == (rules + [first.rule]) + RulesIn(tail);
    } else {
      assert [] + RulesIn(tail) == RulesIn(tail);
    }
  }

  /** Fail-fast: a file loads exactly when no line of it is an error and it has
   *  at most 32 rules, and then every rule of every line is there, in order. */
  lemma {:induction false} LoadsIff(parse: string -> Result, file: string, rules: seq<Rule>, line: nat)
    requires |rules| <= MAX_RULES
    ensures Complete(LoadFrom(parse, file, rules, line), rules, Results(parse, AllLines(file)))
    decreases |file|
  {
    if file == "" {
      assert rules + [] == rules;
    } else {
      var first, rest := parse(CutAt(file, '\n')), AfterLine(file);
      var tail, outcome := Results(parse, AllLines(rest)), LoadFrom(parse, file, rules, line);
      assert outcome == LoadOn(parse, first, rest, rules, line + 1);
      ConsLines(parse, file);
      if first.Bad? || (first.Add? && |rules| >= MAX_RULES) {
        ConsResult(first, tail);
      } else {
        var more := if first.Add? then rules + [first.rule] else rules;
        assert outcome == LoadFrom(parse, rest, more, line + 1);
        LoadsIff(parse, rest, more, line + 1);
        CompleteStep(outcome, rules, first, tail);
      }
    }
  }

  /** A rejection names the first line that is an error, or that has a rule too
   *  many, and keeps the rules of the lines before it. */
  ghost predicate Blamed(outcome: Outcome, rules: seq<Rule>, line: nat, results: seq<Result>)
    requires outcome.Rejected?
  {
    var k := outcome.line - line - 1;
    && 0 <= k < |results| && NoneBad(results[..k])
    && outcome.rules == rules + RulesIn(results[..k])
    && (results[k] == Bad(outcome.error)
        || (results[k].Add? && outcome.error == TooMany && |outcome.rules| == 32))
  }

  lemma {:induction false} FirstErrorIsBlamed(parse: string -> Result, file: string, rules: seq<Rule>, line: nat)
    requires |rules| <= MAX_RULES && LoadFrom(parse, file, rules, line).Rejected?
    ensures Blamed(LoadFrom(parse, file, rules, line), rules, line, Results(parse, AllLines(file)))
    decreases |file|
  {
    var first, rest := parse(CutAt(file, '\n')), AfterLine(file);
    var tail, outcome := Results(parse, AllLines(rest)), LoadFrom(parse, file, rules, line);
    assert outcome == LoadOn(parse, first, rest, rules, line + 1);
    ConsLines(parse, file);
    if first.Bad? || (first.Add? && |rules| >= MAX_RULES) {
      assert rules + RulesIn([]) == rules;
    } else {
      var more := if first.Add? then rules + [first.rule] else rules;
      FirstErrorIsBlamed(parse, rest, more, line + 1);
      BlameStep(outcome, rules, line, first, tail);
    }
  }

  lemma BlameStep(outcome: Outcome, rules: seq<Rule>, line: nat, first: Result, tail: seq<Result>)
    requires outcome.Rejected? && !first.Bad?
    requires Blamed(outcome, if first.Add? then rules + [first.rule] else rules, line + 1, tail)
    ensures Blamed(outcome, rules, line, [first] + tail)
  {
    var k := outcome.line - line - 2;
    assert ([first] + tail)[..k + 1] == [first] + tail[..k];
    ConsResult(first, tail[..k]);
    if first.Add? {
      assert rules + ([first.rule] + RulesIn(tail[..k])) == (rules + [first.rule]) + RulesIn(tail[..k]);
    } else {
      assert [] + RulesIn(tail[..k]) == RulesIn(tail[..k]);
    }
  }

  lemma ConsLines(parse: string -> Result, file: string)
    requires file != ""
    ensures Results(parse, AllLines(file)) == [parse(CutAt(file, '\n'))] + Results(parse, AllLines(AfterLine(file)))
  {
    assert AllLines(file)[1..] == AllLines(AfterLine(file));
  }

  lemma InnerLine(file: string) returns (body: string, rest: string)
    requires file != "" && file[|file| - 1] != '\n' && '\n' in file
    ensures '\n' !in body && |rest| < |file|
    ensures file == EndLine(body, rest) && EndLine(file, "") == EndLine(body, EndLine(rest, ""))
    ensures rest != "" && rest[|rest| - 1] != '\n'
  {
    body := CutAt(file, '\n');
    assert |body| == |file| ==> body == file;
    rest := file[|body| + 1..];
    assert file == EndLine(body, rest);
    assert EndLine(file, "") == EndLine(body, EndLine(rest, ""));
  }

  lemma LinesOfEndLine(body: string, rest: string)
    requires '\n' !in body
    ensures AllLines(EndLine(body, rest)) == [body] + AllLines(rest)
  {
    FirstLine(body, rest);
  }

  /** The line end of the last line may be missing: the lines are the same, and
   *  with them what loads. */
  lemma {:induction false} LastLineEnd(file: string)
    requires file != "" && file[|file| - 1] != '\n'
    ensures AllLines(EndLine(file, "")) == AllLines(file)
    decreases |file|
  {
    if '\n' in file {
      var body, rest := InnerLine(file);
      LinesOfEndLine(body, rest);
      LinesOfEndLine(body, EndLine(rest, ""));
      LastLineEnd(rest);
    } else {
      LinesOfEndLine(file, "");
      CutAfter(file, '\n', "");
      assert AllLines("") == [];
    }
  }

  /** A line of 127 or more characters never yields a rule.  It is an error
   *  exactly when something other than blanks comes before any `#` in its first
   *  127 characters; otherwise it is passed over, whatever follows. */
  lemma OverlongLine(body: string)
    requires |body| >= 127
    ensures var seen := CutAt(body[..127], '#');
            ParseLine(body) == if All(seen, Blank) then Skip else Bad(LineLength)
  {
    var seen := CutAt(body[..LINE_ROOM], '#');
    assert body[..LINE_ROOM] == if |body| > LINE_ROOM then body[..LINE_ROOM] else body;
    if All(seen, Blank) {
      assert seen == seen + "" + "";
      TrimPadded(seen, "", "", Blank);
    } else {
      TrimKeepsNonBlank(seen, Blank);
    }
  }

  lemma {:induction false} TrimKeepsNonBlank(s: string, blank: char -> bool)
    requires !All(s, blank)
    ensures Trim(s, blank) != ""
    decreases |s|
  {
    if blank(s[0]) {
      TrimKeepsNonBlank(s[1..], blank);
    } else {
      TrimRightKeeps(s, blank);
    }
  }

  lemma {:induction false} TrimRightKeeps(s: string, blank: char -> bool)
    requires s != "" && !blank(s[0])
    ensures TrimRight(s, blank) != ""
    decreases |s|
  {
    if blank(s[|s| - 1]) {
      TrimRightKeeps(s[..|s| - 1], blank);
    }
  }

  /** A shorter line is what its text up to any `#` is: nothing if that is blank,
   *  otherwise what its fields say. */
  lemma ShortLine(body: string)
    requires |body| < 127
    ensures var text := CutAt(body, '#');
            ParseLine(body) == if All(text, Blank) then Skip else ParseRule(Trim(text, Blank))
  {
    var text := CutAt(body, '#');
    if All(text, Blank) {
      assert text == text + "" + "";
      TrimPadded(text, "", "", Blank);
    } else {
      TrimKeepsNonBlank(text, Blank);
    }
  }

  /** So a rule behind 127 blanks is lost without an error, though every line
   *  that is too long is meant to fail the load. */
  lemma IndentedRuleIsLost(rule: Rule, pads: seq<string>)
    requires Storable(rule) && PadsOk(pads) && |pads[0]| >= 127
    ensures LoadText(Text([Body(RuleLine(rule, pads, ""))])) == Loaded([])
  {
    var body := Body(RuleLine(rule, pads, ""));
    IndentedLineIsSkipped(rule, pads);
    assert Text([body]) == EndLine(body, "");
    LoadStep(ParseLine, body, "", [], 0);
  }

  lemma IndentedLineIsSkipped(rule: Rule, pads: seq<string>)
    requires Storable(rule) && PadsOk(pads) && |pads[0]| >= 127
    ensures '\n' !in Body(RuleLine(rule, pads, "")) && ParseLine(Body(RuleLine(rule, pads, ""))) == Skip
  {
    var body := Body(RuleLine(rule, pads, ""));
    CoreShape(rule, pads);
    var seen := CutAt(body[..127], '#');
    forall i | 0 <= i < |seen|
      ensures Blank(seen[i])
    {
      assert seen[i] == pads[0][i];
    }
    OverlongLine(body);
  }

  // ---- The loader and the decision ----

  class PolicyTable {
    var rules: seq<Rule>

    constructor ()
      ensures rules == []
    {
      rules := [];
    }

    /** irt_policy_allows, which permits a request exactly when some rule is for
     *  the user, the partition or any, and a range of ids with this one in it. */
    method Allows(uid: u32, partition: u32, id: u32) returns (ok: bool)
      ensures ok <==> exists r :: r in rules && r.uid == uid && (r.wildcard || r.partition == partition)
                                  && r.minId <= id <= r.maxId
    {
      for i := 0 to |rules|
        invariant forall k :: 0 <= k < i ==>
                    !(rules[k].uid == uid && (rules[k].wildcard || rules[k].partition == partition)
                      && rules[k].minId <= id <= rules[k].maxId)
      {
        var r := rules[i];
        if r.uid == uid && (r.wildcard || r.partition == partition) && id >= r.minId && id <= r.maxId {
          assert r in rules;
          return true;
        }
      }
      ok := false;
    }

    /** irt_policy_load on the text of an open file. */
    method Load(file: string) returns (outcome: Outcome)
      modifies this
      ensures outcome == LoadText(file)
      ensures rules == outcome.rules
    {
      rules := [];
      var rest, line := file, 0;
      while rest != ""
        invariant LoadFrom(ParseLine, rest, rules, line) == LoadText(file)
        decreases |rest|
      {
        var buffer, after, overlong := ReadLine(rest);
        line := line + 1;
        var text := CutAt(buffer, '#');
        var s := TrimText(text, Blank);
        if overlong {
          if s != "" {
            return Rejected(LineLength, line, rules);
          }
          rest := after;
          continue;
        }
        rest := after;
        if s == "" {
          continue;
        }
        var result := ReadRule(s);
        match result {
          case Bad(e) => return Rejected(e, line, rules);
          case Add(r) =>
            if |rules| >= MAX_RULES {
              return Rejected(TooMany, line, rules);
            }
            rules := rules + [r];
          case Skip =>
        }
      }
      outcome := Loaded(rules);
    }
  }

  /** The text the loader works on, with the line end that fgets keeps. */
  lemma LineEndIsTrimmed(body: string)
    requires '\n' !in body
    ensures Trim(CutAt(body + "\n", '#'), Blank) == Trim(CutAt(body, '#'), Blank)
  {
    var cut := CutAt(body, '#');
    if |cut| == |body| {
      assert body == cut;
      CutAfter(body + "\n", '#', "");
      TrimEnd(body);
    } else {
      var rest := body[|cut| + 1..];
      assert body + "\n" == cut + ['#'] + (rest + "\n");
      CutAfter(cut, '#', rest + "\n");
    }
  }

  lemma TrimEnd(s: string)
    ensures Trim(s + "\n", Blank) == Trim(s, Blank)
  {
    if All(s, Blank) {
      TrimPadded(s + "\n", "", "", Blank);
      TrimPadded(s, "", "", Blank);
      assert (s + "\n") + "" + "" == s + "\n" && s + "" + "" == s;
    } else {
      TrimLeftThenEnd(s);
    }
  }

  lemma {:induction false} TrimLeftThenEnd(s: string)
    requires !All(s, Blank)
    ensures Trim(s + "\n", Blank) == Trim(s, Blank)
    decreases |s|
  {
    assert (s + "\n")[1..] == s[1..] + "\n";
    if Blank(s[0]) {
      TrimLeftThenEnd(s[1..]);
    } else {
      TrimRightPad(s, "\n", Blank);
    }
  }

  /** fgets into the 128-byte buffer, and dropping the rest of a line that did
   *  not fit.  At most 127 characters are read; a buffer filled without a line
   *  end counts as overlong even when the file ends there. */
  method ReadLine(file: string) returns (buffer: string, after: string, overlong: bool)
    requires file != ""
    ensures after == AfterLine(file)
    ensures overlong <==> |CutAt(file, '\n')| >= LINE_ROOM
    ensures Trim(CutAt(buffer, '#'), Blank) == Visible(CutAt(file, '\n'))
  {
    ghost var body := CutAt(file, '\n');
    var n := 0;
    while n < |file| && n < LINE_ROOM && (n == 0 || file[n - 1] != '\n')
      invariant n <= LINE_ROOM && n <= |file|
      invariant n <= |body| || (n == |body| + 1 && file[n - 1] == '\n')
    {
      n := n + 1;
    }
    buffer := file[..n];
    var ended := n > 0 && file[n - 1] == '\n';
    var atEof := n < LINE_ROOM && n == |file|;
    overlong := !ended && !atEof;
    if ended {
      assert file[n - 1] in file[..n];
      assert n == |body| + 1;
      assert buffer == body + "\n";
      LineEndIsTrimmed(body);
    } else {
      assert n <= |body|;
      assert buffer == body[..n];
    }
    if overlong {
      while n < |file| && file[n] != '\n'
        invariant n <= |body|
      {
        n := n + 1;
      }
      n := if n < |file| then n + 1 else n;
    }
    after := file[n..];
  }

  method ReadRule(s: string) returns (result: Result)
    ensures result == ParseRule(s)
  {
    var fields, nf := SplitFields(s);
    if nf != 4 {
      return Bad(Fields);
    }
    var f0 := TrimText(fields[0], FieldBlank);
    var f1 := TrimText(fields[1], FieldBlank);
    var f2 := TrimText(fields[2], FieldBlank);
    var f3 := TrimText(fields[3], FieldBlank);
    var wildcard := |f1| == 1 && f1[0] == '*';
    assert wildcard <==> f1 == "*";
    var uid := ParseDecimal(f0);
    var partition := ParseDecimal(f1);
    var minId := ParseDecimal(f2);
    var maxId := ParseDecimal(f3);
    if uid.None? || (!wildcard && partition.None?) || minId.None? || maxId.None? {
      return Bad(Number);
    }
    if minId.value > maxId.value {
      return Bad(Range);
    }
    return Add(Rule(uid.value, wildcard, if wildcard then 0 else partition.value, minId.value, maxId.value));
  }

  function FirstFour(parts: seq<string>): seq<string> {
    if |parts| <= 4 then parts else parts[..4]
  }

  /** Keeps the first four fields and counts them all. */
  method SplitFields(s: string) returns (fields: seq<string>, nf: nat)
    ensures nf == |Split(s)|
    ensures fields == FirstFour(Split(s))
  {
    fields, nf := [], 0;
    var cur := s;
    ghost var done: seq<string> := [];
    while ':' in cur
      invariant Splitting(s, done, cur)
      invariant nf == |done| && fields == FirstFour(done)
      decreases |cur|
    {
      var front := CutAt(cur, ':');
      NextField(s, done, cur);
      FirstFourGrows(done, front);
      if nf < 4 {
        fields := fields + [front];
      }
      nf := nf + 1;
      done := done + [front];
      cur := cur[|front| + 1..];
    }
    CutAfter(cur, ':', "");
    assert Split(s) == done + [cur];
    FirstFourGrows(done, cur);
    if nf < 4 {
      fields := fields + [cur];
    }
    nf := nf + 1;
  }

  lemma FirstFourGrows(parts: seq<string>, field: string)
    ensures FirstFour(parts + [field]) == if |parts| < 4 then FirstFour(parts) + [field] else FirstFour(parts)
  {
  }

  ghost predicate Splitting(s: string, done: seq<string>, cur: string) {
    Split(s) == done + Split(cur)
  }

  lemma NextField(s: string, done: seq<string>, cur: string)
    requires ':' in cur && Splitting(s, done, cur)
    ensures var front := CutAt(cur, ':');
            |front| < |cur| && Splitting(s, done + [front], cur[|front| + 1..])
  {
    assert |CutAt(cur, ':')| == |cur| ==> CutAt(cur, ':') == cur;
  }
}
