/** Polls written as text: a question, options that start with a dash, an optional duration
    (bot/poll/poll.go). */
module PollParser {
  import opened Prelude
  import opened Decimal
  import opened Text

  const HOUR: int := 3_600_000_000_000

  datatype PollConfig = PollConfig(minOptions: int, maxOptions: int, minDuration: int, maxDuration: int,
                                   defaultDuration: int)

  datatype Poll = Poll(question: string, options: seq<string>, duration: int)

  datatype PollError = ParsingDuration | MaxOptionsReached | QuestionNotSet | MinOptionsNotReached

  // -------------------------------------------------------------- the duration

  /** The bracket expression of the duration pattern is a set of characters, not of words. */
  predicate IsUnitChar(c: char) {
    c == 'h' || c == 'o' || c == 'u' || c == 'r' || c == 's' || c == '|'
  }

  predicate IsPatternSpace(c: char) {
    c == '\t' || c == '\n' || c == '\U{000C}' || c == '\r' || c == ' '
  }

  function SkipSpaces(s: string): string {
    if s != "" && IsPatternSpace(s[0]) then SkipSpaces(s[1..]) else s
  }

  predicate IsUnit(s: string) {
    s != "" && forall c | c in s :: IsUnitChar(c)
  }

  /** The hours named by a duration line; None when the pattern does not match. */
  function HoursOf(line: string): Option<nat> {
    if line == "" || !IsDigit(line[0]) then None
    else if |line| > 1 && IsDigit(line[1]) then
      if IsUnit(SkipSpaces(line[2..])) then Some(Value(line[..2])) else None
    else
      if IsUnit(SkipSpaces(line[1..])) then Some(Value(line[..1])) else None
  }

  function ParseDuration(line: string): Result<int, PollError> {
    match HoursOf(line)
    case Some(hours) => Ok(HOUR * hours)
    case None => Err(ParsingDuration)
  }

  /** `line` is one or two digits, then spaces, then a unit. */
  ghost predicate ReadsAs(line: string, digits: string, spaces: string, unit: string) {
    && line == digits + spaces + unit
    && 1 <= |digits| <= 2 && AllDigits(digits)
    && (forall c | c in spaces :: IsPatternSpace(c))
    && IsUnit(unit)
  }

  lemma {:induction false} SkipSpacesSplits(s: string) returns (spaces: string)
    ensures s == spaces + SkipSpaces(s) && forall c | c in spaces :: IsPatternSpace(c)
  {
    spaces := "";
    if s != "" && IsPatternSpace(s[0]) {
      var rest := SkipSpacesSplits(s[1..]);
      spaces := [s[0]] + rest;
    }
  }

  lemma {:induction false} SkipSpacesDrops(spaces: string, unit: string)
    requires (forall c | c in spaces :: IsPatternSpace(c)) && IsUnit(unit)
    ensures SkipSpaces(spaces + unit) == unit
  {
    if spaces == "" {
      assert spaces + unit == unit && unit[0] in unit && !IsPatternSpace(unit[0]);
    } else {
      assert spaces[0] in spaces && (spaces + unit)[1..] == spaces[1..] + unit;
      SkipSpacesDrops(spaces[1..], unit);
    }
  }

  /** The pattern, both ways: what it accepts and the number it reads. */
  lemma DurationPattern(line: string, hours: nat)
    ensures HoursOf(line) == Some(hours)
            <==> exists digits, spaces, unit :: ReadsAs(line, digits, spaces, unit) && Value(digits) == hours
  {
    if HoursOf(line) == Some(hours) {
      var n := if |line| > 1 && IsDigit(line[1]) then 2 else 1;
      var spaces := SkipSpacesSplits(line[n..]);
      assert line == line[..n] + spaces + SkipSpaces(line[n..]);
      assert ReadsAs(line, line[..n], spaces, SkipSpaces(line[n..]));
    }
    if digits, spaces, unit :| ReadsAs(line, digits, spaces, unit) && Value(digits) == hours {
      ReadsAsHours(line, digits, spaces, unit);
    }
  }

  lemma ReadsAsHours(line: string, digits: string, spaces: string, unit: string)
    requires ReadsAs(line, digits, spaces, unit)
    ensures HoursOf(line) == Some(Value(digits))
  {
    var n := |digits|;
    assert line[n..] == spaces + unit && line[..n] == digits;
    SkipSpacesDrops(spaces, unit);
    assert unit[0] in unit;
    if spaces != "" { assert spaces[0] in spaces; }
    assert line[0] == digits[0];
    assert n == 2 ==> line[1] == digits[1];
    assert !IsDigit(line[n]);
  }

  /** Units that the documentation does not have in mind. */
  lemma UnitsAreLoose()
    ensures HoursOf("24rush") == Some(24) && HoursOf("24|") == Some(24)
    ensures ParseDuration("24|") == Ok(24 * 60 * 60 * 1_000_000_000)
  {
    assert "24" + "" + "rush" == "24rush" && "24" + "" + "|" == "24|";
    assert "24"[..1] == "2" && "2"[..0] == "";
    assert Value("2") == 2 && Value("24") == 24;
    ReadsAsHours("24rush", "24", "", "rush");
    ReadsAsHours("24|", "24", "", "|");
  }

  // ---------------------------------------------------------------- the grammar

  predicate StartsWithDash(line: string) {
    line != "" && line[0] == '-'
  }

  /** The lines that matter: trimmed, without the empty ones. */
  function Trimmed(lines: seq<string>): seq<string> {
    if lines == [] then []
    else
      var last := TrimSpace(lines[|lines| - 1]);
      Trimmed(lines[..|lines| - 1]) + if last == "" then [] else [last]
  }

  function OptionText(line: string): string
    requires StartsWithDash(line)
  {
    TrimSpace(line[1..])
  }

  /** The question block, the option block, and what follows them. */
  ghost predicate IsShape(lines: seq<string>, question: seq<string>, options: seq<string>, rest: seq<string>) {
    && lines == question + options + rest
    && (forall l | l in question :: !StartsWithDash(l))
    && (forall l | l in options :: StartsWithDash(l))
    && (rest != [] ==> options != [] && !StartsWithDash(rest[0]))
  }

  function OptionTexts(options: seq<string>): seq<string>
    requires forall l | l in options :: StartsWithDash(l)
  {
    seq(|options|, i requires 0 <= i < |options| => assert options[i] in options; OptionText(options[i]))
  }

  /** The lines with a space between each two of them. */
  function Joined(lines: seq<string>): string {
    if lines == [] then ""
    else if |lines| == 1 then lines[0]
    else Joined(lines[..|lines| - 1]) + " " + lines[|lines| - 1]
  }

  /** What a text of a given shape stands for. Only the first line of the rest is looked at. */
  ghost function Meaning(config: PollConfig, question: seq<string>, options: seq<string>, rest: seq<string>)
      : Result<Poll, PollError>
    requires forall l | l in options :: StartsWithDash(l)
  {
    if options != [] && |options| > config.maxOptions then Err(MaxOptionsReached)
    else
      var duration := if rest == [] then Ok(config.defaultDuration) else ParseDuration(rest[0]);
      if duration.Err? then Err(ParsingDuration)
      else if rest != [] && !(config.minDuration <= duration.value <= config.maxDuration) then Err(ParsingDuration)
      else if question == [] then Err(QuestionNotSet)
      else if |options| < config.minOptions then Err(MinOptionsNotReached)
      else Ok(Poll(Joined(question), OptionTexts(options), duration.value))
  }

  ghost predicate Means(message: string, config: PollConfig, r: Result<Poll, PollError>) {
    exists question, options, rest ::
      IsShape(Trimmed(Lines(message)), question, options, rest) && r == Meaning(config, question, options, rest)
  }

  lemma {:induction false} SameBlock(a: seq<string>, b: seq<string>, a': seq<string>, b': seq<string>, dash: bool)
    requires a + b == a' + b'
    requires (forall l | l in a :: StartsWithDash(l) == dash) && (b != [] ==> StartsWithDash(b[0]) != dash)
    requires (forall l | l in a' :: StartsWithDash(l) == dash) && (b' != [] ==> StartsWithDash(b'[0]) != dash)
    ensures a == a' && b == b'
  {
    var s := a + b;
    BlockLength(s, a, b, dash);
    BlockLength(s, a', b', dash);
    assert |a| == |a'|;
    assert a == s[..|a|] && a' == s[..|a|] && b == s[|a|..] && b' == s[|a|..];
  }

  lemma BlockLength(s: seq<string>, a: seq<string>, b: seq<string>, dash: bool)
    requires s == a + b && (forall l | l in a :: StartsWithDash(l) == dash)
            && (b != [] ==> StartsWithDash(b[0]) != dash)
    ensures forall i | 0 <= i < |a| :: StartsWithDash(s[i]) == dash
    ensures |a| < |s| ==> StartsWithDash(s[|a|]) != dash
  {
    forall i | 0 <= i < |a| ensures StartsWithDash(s[i]) == dash {
      assert a[i] in a;
    }
  }

  lemma ShapeIsUnique(lines: seq<string>, q: seq<string>, o: seq<string>, t: seq<string>,
                      q': seq<string>, o': seq<string>, t': seq<string>)
    requires IsShape(lines, q, o, t) && IsShape(lines, q', o', t')
    ensures q == q' && o == o' && t == t'
  {
    ConcatAssociates(q, o, t);
    ConcatAssociates(q', o', t');
    assert o != [] ==> (o + t)[0] in o;
    assert o' != [] ==> (o' + t')[0] in o';
    SameBlock(q, o + t, q', o' + t', false);
    SameBlock(o, t, o', t', true);
  }

  /** A text has one shape, so it stands for one poll or one error. */
  lemma MeaningIsUnique(message: string, config: PollConfig, r: Result<Poll, PollError>,
                        q: seq<string>, o: seq<string>, t: seq<string>)
    requires Means(message, config, r) && IsShape(Trimmed(Lines(message)), q, o, t)
    ensures r == Meaning(config, q, o, t)
  {
    var q', o', t' :| IsShape(Trimmed(Lines(message)), q', o', t') && r == Meaning(config, q', o', t');
    ShapeIsUnique(Trimmed(Lines(message)), q, o, t, q', o', t');
  }

  // ------------------------------------------------------------------ the parser

  function WithLinebreaks(lines: seq<string>): string {
    if lines == [] then "" else WithLinebreaks(lines[..|lines| - 1]) + lines[|lines| - 1] + "\n"
  }

  ghost predicate AreTrimmedLines(lines: seq<string>) {
    forall l | l in lines :: l != "" && IsTrimmed(l) && '\n' !in l
  }

  lemma ReplaceInLine(a: string, line: string)
    requires '\n' !in line
    ensures ReplaceNewlines(a + line + "\n") == ReplaceNewlines(a) + line + " "
  {
    forall i | 0 <= i < |line| ensures line[i] != '\n' { assert line[i] in line; }
  }

  lemma JoinTrimmed(a: string, b: string)
    requires a != "" && b != "" && IsTrimmed(a) && IsTrimmed(b)
    ensures IsTrimmed(a + " " + b)
  {
    var s := a + " " + b;
    assert s[0] == a[0] && s[|s| - 1] == b[|b| - 1];
  }

  lemma {:induction false} JoinedIsTrimmed(lines: seq<string>)
    requires AreTrimmedLines(lines) && lines != []
    ensures Joined(lines) != "" && IsTrimmed(Joined(lines))
  {
    var front, last := lines[..|lines| - 1], lines[|lines| - 1];
    assert last in lines;
    if front != [] {
      assert forall l | l in front :: l in lines;
      JoinedIsTrimmed(front);
      JoinTrimmed(Joined(front), last);
    }
  }

  lemma {:induction false} BreaksBecomeSpaces(lines: seq<string>)
    requires AreTrimmedLines(lines) && lines != []
    ensures ReplaceNewlines(WithLinebreaks(lines)) == Joined(lines) + " "
  {
    var front, last := lines[..|lines| - 1], lines[|lines| - 1];
    assert last in lines;
    ReplaceInLine(WithLinebreaks(front), last);
    if front == [] {
      assert ReplaceNewlines("") + last + " " == last + " ";
    } else {
      assert forall l | l in front :: l in lines;
      BreaksBecomeSpaces(front);
    }
  }

  lemma QuestionText(lines: seq<string>)
    requires AreTrimmedLines(lines) && lines != []
    ensures WithLinebreaks(lines) != ""
    ensures TrimSpace(ReplaceNewlines(WithLinebreaks(lines))) == Joined(lines)
  {
    JoinedIsTrimmed(lines);
    BreaksBecomeSpaces(lines);
    assert "" + Joined(lines) + " " == Joined(lines) + " ";
    TrimDrops("", Joined(lines), " ");
  }

  lemma {:induction false} TrimmedLinesAreTrimmed(lines: seq<string>)
    requires forall l | l in lines :: '\n' !in l
    ensures AreTrimmedLines(Trimmed(lines))
  {
    if lines != [] {
      var front, last := lines[..|lines| - 1], lines[|lines| - 1];
      assert lines == front + [last];
      TrimmedLinesAreTrimmed(front);
      TrimResult(last);
    }
  }

  lemma {:induction false} TrimmedConcat(a: seq<string>, b: seq<string>)
    ensures Trimmed(a + b) == Trimmed(a) + Trimmed(b)
  {
    if b == [] {
      assert a + b == a;
    } else {
      assert (a + b)[..|a + b| - 1] == a + b[..|b| - 1];
      TrimmedConcat(a, b[..|b| - 1]);
    }
  }

  /** What the parser keeps after reading the first `i` lines. */
  ghost predicate HasRead(lines: seq<string>, i: nat, q: seq<string>, o: seq<string>, question: string,
                          options: seq<string>) {
    && i <= |lines| && Trimmed(lines[..i]) == q + o
    && (forall l | l in q :: !StartsWithDash(l)) && (forall l | l in o :: StartsWithDash(l))
    && question == WithLinebreaks(q) && options == OptionTexts(o)
  }

  lemma LineRead(lines: seq<string>, i: nat) returns (later: seq<string>)
    requires i < |lines|
    ensures Trimmed(lines[..i + 1])
            == Trimmed(lines[..i]) + if TrimSpace(lines[i]) == "" then [] else [TrimSpace(lines[i])]
    ensures Trimmed(lines) == Trimmed(lines[..i + 1]) + later
  {
    later := Trimmed(lines[i + 1..]);
    assert lines[..i + 1][..i] == lines[..i];
    TrimmedConcat(lines[..i + 1], lines[i + 1..]);
    assert lines == lines[..i + 1] + lines[i + 1..];
  }

  lemma {:induction false} DashBlock(lines: seq<string>) returns (block: seq<string>, rest: seq<string>)
    ensures lines == block + rest && forall l | l in block :: StartsWithDash(l)
    ensures rest != [] ==> !StartsWithDash(rest[0])
  {
    if lines == [] || !StartsWithDash(lines[0]) {
      block, rest := [], lines;
    } else {
      block, rest := DashBlock(lines[1..]);
      block := [lines[0]] + block;
    }
  }

  lemma SkipLine(lines: seq<string>, i: nat, q: seq<string>, o: seq<string>, question: string, options: seq<string>)
    requires i < |lines| && HasRead(lines, i, q, o, question, options) && TrimSpace(lines[i]) == ""
    ensures HasRead(lines, i + 1, q, o, question, options)
  {
    var _ := LineRead(lines, i);
    assert Trimmed(lines[..i]) + [] == Trimmed(lines[..i]);
  }

  lemma QuestionLine(lines: seq<string>, i: nat, q: seq<string>, question: string, line: string)
    requires i < |lines| && HasRead(lines, i, q, [], question, []) && line == TrimSpace(lines[i])
    requires line != "" && !StartsWithDash(line)
    ensures HasRead(lines, i + 1, q + [line], [], question + line + "\n", [])
  {
    var _ := LineRead(lines, i);
    assert (q + [line])[..|q|] == q;
  }

  lemma OptionLine(lines: seq<string>, i: nat, q: seq<string>, o: seq<string>, question: string, options: seq<string>,
                   line: string)
    requires i < |lines| && HasRead(lines, i, q, o, question, options) && line == TrimSpace(lines[i])
    requires StartsWithDash(line)
    ensures HasRead(lines, i + 1, q, o + [line], question, options + [TrimSpace(line[1..])])
  {
    var _ := LineRead(lines, i);
    assert OptionTexts(o + [line]) == OptionTexts(o) + [OptionText(line)];
  }

  lemma DurationLine(lines: seq<string>, i: nat, q: seq<string>, o: seq<string>, question: string,
                     options: seq<string>, line: string)
      returns (rest: seq<string>)
    requires i < |lines| && HasRead(lines, i, q, o, question, options) && line == TrimSpace(lines[i])
    requires o != [] && line != "" && !StartsWithDash(line)
    ensures IsShape(Trimmed(lines), q, o, rest) && rest != [] && rest[0] == line
  {
    var later := LineRead(lines, i);
    rest := [line] + later;
    assert Trimmed(lines) == q + o + rest;
  }

  lemma BadDuration(message: string, config: PollConfig, q: seq<string>, o: seq<string>, rest: seq<string>)
    requires IsShape(Trimmed(Lines(message)), q, o, rest) && rest != [] && |o| <= config.maxOptions
    requires forall d :: !IsPermitted(rest[0], config, d)
    ensures Means(message, config, Err(ParsingDuration))
  {
    var d := ParseDuration(rest[0]);
    assert d.Ok? ==> !IsPermitted(rest[0], config, d.value);
    MeansBy(message, config, q, o, rest);
  }

  lemma TooManyOptions(message: string, i: nat, q: seq<string>, o: seq<string>, question: string, options: seq<string>,
                       config: PollConfig)
    requires i < |Lines(message)| && HasRead(Lines(message), i, q, o, question, options)
    requires StartsWithDash(TrimSpace(Lines(message)[i])) && |o| >= config.maxOptions
    ensures Means(message, config, Err(MaxOptionsReached))
  {
    var line := TrimSpace(Lines(message)[i]);
    var later := LineRead(Lines(message), i);
    var more, rest := DashBlock(later);
    Regroup(q, o, [line], more, rest);
    MeansBy(message, config, q, o + [line] + more, rest);
  }

  lemma Regroup<T>(a: seq<T>, b: seq<T>, c: seq<T>, d: seq<T>, e: seq<T>)
    ensures a + b + c + (d + e) == a + (b + c + d) + e
  {}

  lemma AllRead(lines: seq<string>, i: nat, q: seq<string>, o: seq<string>, question: string, options: seq<string>)
    requires i == |lines| && HasRead(lines, i, q, o, question, options)
    ensures IsShape(Trimmed(lines), q, o, [])
  {
    assert lines[..i] == lines && q + o + [] == q + o;
  }

  lemma MeansBy(message: string, config: PollConfig, q: seq<string>, o: seq<string>, rest: seq<string>)
    requires IsShape(Trimmed(Lines(message)), q, o, rest)
    ensures Means(message, config, Meaning(config, q, o, rest))
  {}

  ghost predicate IsPermitted(line: string, config: PollConfig, duration: int) {
    ParseDuration(line) == Ok(duration) && config.minDuration <= duration <= config.maxDuration
  }

  /** The duration line, read and checked. */
  method PermittedDuration(line: string, config: PollConfig) returns (r: Option<int>)
    ensures r.Some? ==> IsPermitted(line, config, r.value)
    ensures r.None? ==> forall d :: !IsPermitted(line, config, d)
  {
    var parsed := ParseDuration(line);
    if parsed.Err? {
      return None;
    }
    if parsed.value < config.minDuration || parsed.value > config.maxDuration {
      return None;
    }
    r := Some(parsed.value);
  }

  /** What one line does: it is read, it ends the poll with a duration, or it is refused. */
  datatype Round = Read(question: string, options: seq<string>) | Ended(duration: int) | Refused(error: PollError)

  /** One round of the loop. */
  method ReadLine(message: string, config: PollConfig, i: nat, text: string, question: string, options: seq<string>,
                  ghost q: seq<string>, ghost o: seq<string>)
      returns (r: Round, ghost q': seq<string>, ghost o': seq<string>, ghost rest: seq<string>)
    requires i < |Lines(message)| && text == Lines(message)[i]
    requires HasRead(Lines(message), i, q, o, question, options) && (o != [] ==> |o| <= config.maxOptions)
    ensures r.Read? ==>
              HasRead(Lines(message), i + 1, q', o', r.question, r.options) && (o' != [] ==> |o'| <= config.maxOptions)
    ensures r.Ended? ==>
              && q' == q && o' == o && IsShape(Trimmed(Lines(message)), q, o, rest)
              && rest != [] && IsPermitted(rest[0], config, r.duration)
    ensures r.Refused? ==> Means(message, config, Err(r.error))
  {
    ghost var lines := Lines(message);
    var line := TrimSpace(text);
    q', o', rest := q, o, [];
    if line == "" {
      SkipLine(lines, i, q, o, question, options);
      return Read(question, options), q, o, [];
    }
    if !StartsWithDash(line) {
      // before the first option, a line without a dash belongs to the question
      if |options| == 0 {
        QuestionLine(lines, i, q, question, line);
        return Read(question + line + "\n", options), q + [line], o, [];
      }
      // after the options it is the duration, and the last line that is looked at
      rest := DurationLine(lines, i, q, o, question, options, line);
      var duration := PermittedDuration(line, config);
      if duration.None? {
        BadDuration(message, config, q, o, rest);
        return Refused(ParsingDuration), q, o, [];
      }
      return Ended(duration.value), q, o, rest;
    }
    if |options| >= config.maxOptions {
      TooManyOptions(message, i, q, o, question, options, config);
      return Refused(MaxOptionsReached), q, o, [];
    }
    OptionLine(lines, i, q, o, question, options, line);
    r, o' := Read(question, options + [TrimSpace(line[1..])]), o + [line];
  }

  method ParseString(message: string, config: PollConfig) returns (r: Result<Poll, PollError>)
    ensures Means(message, config, r)
  {
    var question, options, duration := "", [], config.defaultDuration;
    var lines := Lines(message);
    ghost var q, o, rest := [], [], [];
    NothingRead(lines);
    for i := 0 to |lines|
      invariant HasRead(lines, i, q, o, question, options)
      invariant o != [] ==> |o| <= config.maxOptions
    {
      var round;
      round, q, o, rest := ReadLine(message, config, i, lines[i], question, options, q, o);
      match round
      case Read(question', options') =>
        question, options := question', options';
      case Ended(duration) =>
        var poll := Finish(message, config, i, question, options, duration, q, o, rest);
        return poll;
      case Refused(error) =>
        return Err(error);
    }
    AllRead(lines, |lines|, q, o, question, options);
    r := Finish(message, config, |lines|, question, options, duration, q, o, []);
  }

  lemma NothingRead(lines: seq<string>)
    ensures HasRead(lines, 0, [], [], "", [])
  {
    assert lines[..0] == [];
  }

  /** The checks after the loop. */
  method Finish(message: string, config: PollConfig, ghost i: nat, question: string, options: seq<string>,
                duration: int, ghost q: seq<string>, ghost o: seq<string>, ghost rest: seq<string>)
      returns (r: Result<Poll, PollError>)
    requires IsShape(Trimmed(Lines(message)), q, o, rest) && HasRead(Lines(message), i, q, o, question, options)
    requires o != [] ==> |o| <= config.maxOptions
    requires if rest == [] then duration == config.defaultDuration
             else IsPermitted(rest[0], config, duration)
    ensures Means(message, config, r)
  {
    MeansBy(message, config, q, o, rest);
    if question == "" {
      return Err(QuestionNotSet);
    }
    if |options| < config.minOptions {
      return Err(MinOptionsNotReached);
    }
    LinesHaveNoNewline(message);
    TrimmedLinesAreTrimmed(Lines(message));
    QuestionText(q);
    r := Ok(Poll(TrimSpace(ReplaceNewlines(question)), options, duration));
  }

  // ----------------------------------------------------- what the outcome says

  lemma {:induction false} JoinedConcat(a: seq<string>, b: seq<string>)
    requires a != [] && b != []
    ensures Joined(a + b) == Joined(a) + " " + Joined(b)
  {
    var front, last := b[..|b| - 1], b[|b| - 1];
    assert (a + b)[..|a + b| - 1] == a + front;
    if front == [] {
      assert a + front == a;
    } else {
      JoinedConcat(a, front);
      ConcatAssociates(Joined(a) + " ", Joined(front), " " + last);
      ConcatAssociates(Joined(front), " ", last);
      ConcatAssociates(Joined(a) + " " + Joined(front), " ", last);
      ConcatAssociates(Joined(a) + " ", Joined(front) + " ", last);
    }
  }

  /** When a text is accepted and what it gives; which error it gives otherwise, the first of them in
      this order. */
  lemma AcceptedIff(message: string, config: PollConfig, r: Result<Poll, PollError>,
                    q: seq<string>, o: seq<string>, rest: seq<string>)
    requires Means(message, config, r) && IsShape(Trimmed(Lines(message)), q, o, rest)
    ensures r.Ok? <==> q != [] && |o| >= config.minOptions && (o == [] || |o| <= config.maxOptions)
                       && (rest == [] || exists d :: IsPermitted(rest[0], config, d))
    ensures r.Ok? ==> r.value.question == Joined(q) && r.value.options == OptionTexts(o)
    ensures r.Ok? ==> if rest == [] then r.value.duration == config.defaultDuration
                      else IsPermitted(rest[0], config, r.value.duration)
    ensures r == Err(MaxOptionsReached) <==> o != [] && |o| > config.maxOptions
    ensures r == Err(ParsingDuration)
            <==> (o == [] || |o| <= config.maxOptions) && rest != [] && forall d :: !IsPermitted(rest[0], config, d)
    ensures r == Err(QuestionNotSet) ==> q == []
    ensures r == Err(MinOptionsNotReached) ==> q != [] && |o| < config.minOptions
  {
    MeaningIsUnique(message, config, r, q, o, rest);
    if rest != [] {
      var d := ParseDuration(rest[0]);
      assert d.Ok? && config.minDuration <= d.value <= config.maxDuration ==> IsPermitted(rest[0], config, d.value);
    }
  }

  /** A permitted duration is a whole number of hours below 100. */
  lemma PermittedHours(line: string, config: PollConfig, duration: int)
    requires IsPermitted(line, config, duration)
    ensures exists hours: nat :: hours < 100 && duration == HOUR * hours
  {
    var hours := HoursOf(line).value;
    assert duration == HOUR * hours;
    DurationPattern(line, hours);
    var digits, spaces, unit :| ReadsAs(line, digits, spaces, unit) && Value(digits) == hours;
    ShortValue(digits);
  }

  lemma ShortValue(digits: string)
    requires AllDigits(digits) && 1 <= |digits| <= 2
    ensures Value(digits) < 100
  {
    var front := digits[..|digits| - 1];
    assert AllDigits(front);
    assert |digits| == 2 ==> front[..0] == "" && Value(front) == front[0] as int - '0' as int;
  }

  /** Whatever is accepted is a poll: a question, a permitted number of options, and the default or a
      permitted duration. */
  lemma AcceptedIsAPoll(message: string, config: PollConfig, r: Result<Poll, PollError>)
    requires Means(message, config, r) && r.Ok?
    ensures r.value.question != "" && IsTrimmed(r.value.question)
    ensures config.minOptions <= |r.value.options|
    ensures r.value.options == [] || |r.value.options| <= config.maxOptions
    ensures r.value.duration == config.defaultDuration
            || (config.minDuration <= r.value.duration <= config.maxDuration
                && exists hours: nat :: hours < 100 && r.value.duration == HOUR * hours)
  {
    var q, o, rest :| IsShape(Trimmed(Lines(message)), q, o, rest) && r == Meaning(config, q, o, rest);
    AcceptedIff(message, config, r, q, o, rest);
    LinesHaveNoNewline(message);
    TrimmedLinesAreTrimmed(Lines(message));
    assert forall l | l in q :: l in q + o + rest;
    JoinedIsTrimmed(q);
    if rest != [] {
      PermittedHours(rest[0], config, r.value.duration);
    }
  }

  // ------------------------------------------------------------- printing a poll

  function PrintedOptions(options: seq<string>): string {
    if options == [] then "" else "- " + options[0] + "\n" + PrintedOptions(options[1..])
  }

  function Printed(question: string, options: seq<string>, hours: Option<nat>): string
    requires hours.Some? ==> hours.value < 100
  {
    question + "\n" + PrintedOptions(options) + DurationText(hours)
  }

  ghost predicate IsPlainLine(s: string) {
    IsTrimmed(s) && '\n' !in s
  }

  ghost predicate CanBePrinted(question: string, options: seq<string>, hours: Option<nat>, config: PollConfig) {
    && IsPlainLine(question) && question != "" && !StartsWithDash(question)
    && (forall o | o in options :: IsPlainLine(o))
    && config.minOptions <= |options| <= config.maxOptions
    && (hours.Some? ==> options != [] && 1 <= hours.value < 100
                        && config.minDuration <= HOUR * hours.value <= config.maxDuration)
  }

  function DashLine(option: string): string {
    if option == "" then "-" else "- " + option
  }

  lemma EmptyOptionRead()
    ensures TrimSpace(DropCarriageReturn("- ")) == "-" && OptionText("-") == ""
  {
    TrimDrops("", "-", " ");
    assert "" + "-" + " " == "- ";
    TrimDrops("", "", "");
    assert "-"[1..] == "" + "" + "";
  }

  lemma DashLineTrimmed(option: string)
    requires option != "" && IsTrimmed(option)
    ensures DropCarriageReturn("- " + option) == "- " + option && IsTrimmed("- " + option)
  {
    var line := "- " + option;
    assert line[|line| - 1] == option[|option| - 1] && line[0] == '-';
  }

  lemma DashLineRead(option: string)
    requires IsPlainLine(option)
    ensures TrimSpace(DropCarriageReturn("- " + option)) == DashLine(option)
    ensures OptionText(DashLine(option)) == option
  {
    if option == "" {
      EmptyOptionRead();
      assert "- " + option == "- ";
    } else {
      var line := "- " + option;
      DashLineTrimmed(option);
      TrimDrops("", line, "");
      assert "" + line + "" == line;
      TrimDrops(" ", option, "");
      assert line[1..] == " " + option + "";
    }
  }

  function DashLines(options: seq<string>): seq<string> {
    seq(|options|, i requires 0 <= i < |options| => DashLine(options[i]))
  }

  lemma TrimmedTake(line: string, lines: seq<string>)
    ensures Trimmed([line] + lines) == (if TrimSpace(line) == "" then [] else [TrimSpace(line)]) + Trimmed(lines)
  {
    TrimmedConcat([line], lines);
    assert [line][..0] == [];
  }

  lemma ReadOneLine(line: string, rest: string, trimmed: string)
    requires '\n' !in line && TrimSpace(DropCarriageReturn(line)) == trimmed && trimmed != ""
    ensures Trimmed(Lines(line + "\n" + rest)) == [trimmed] + Trimmed(Lines(rest))
  {
    LinesTake(line, rest);
    TrimmedTake(DropCarriageReturn(line), Lines(rest));
  }

  lemma PrintedOptionsTake(options: seq<string>, tail: string)
    requires options != []
    ensures PrintedOptions(options) + tail == ("- " + options[0]) + "\n" + (PrintedOptions(options[1..]) + tail)
  {
    var line, rest := "- " + options[0] + "\n", PrintedOptions(options[1..]);
    assert PrintedOptions(options) == line + rest;
    ConcatAssociates(line, rest, tail);
  }

  lemma DashLinesTake(options: seq<string>)
    requires options != []
    ensures DashLines(options) == [DashLine(options[0])] + DashLines(options[1..])
  {}

  lemma {:induction false} PrintedOptionsRead(options: seq<string>, tail: string)
    requires forall o | o in options :: IsPlainLine(o)
    ensures Trimmed(Lines(PrintedOptions(options) + tail)) == DashLines(options) + Trimmed(Lines(tail))
  {
    if options == [] {
      assert "" + tail == tail && DashLines(options) == [];
    } else {
      var line, rest := "- " + options[0], PrintedOptions(options[1..]) + tail;
      assert options[0] in options;
      PrintedOptionsRead(options[1..], tail);
      DashLineRead(options[0]);
      ReadOneLine(line, rest, DashLine(options[0]));
      PrintedOptionsTake(options, tail);
      DashLinesTake(options);
      ConcatAssociates([DashLine(options[0])], DashLines(options[1..]), Trimmed(Lines(tail)));
    }
  }

  lemma TwoDigits(n: nat)
    requires n < 100
    ensures 1 <= |Print(n)| <= 2 && AllDigits(Print(n)) && Value(Print(n)) == n
  {
    PrintIsDigits(n);
  }

  lemma DurationRead(n: nat)
    requires 1 <= n < 100
    ensures Trimmed(Lines(Print(n) + "h")) == [Print(n) + "h"]
    ensures !StartsWithDash(Print(n) + "h") && ParseDuration(Print(n) + "h") == Ok(HOUR * n)
  {
    var line := Print(n) + "h";
    TwoDigits(n);
    assert line == Print(n) + "" + "h";
    ReadsAsHours(line, Print(n), "", "h");
    LastLine(line);
  }

  lemma LastLine(line: string)
    requires line != "" && IsTrimmed(line) && '\n' !in line
    ensures Trimmed(Lines(line)) == [line]
  {
    assert NewlineAt(line) == |line|;
    assert line[..|line|] == line;
    assert Lines(line) == [line];
    assert "" + line + "" == line;
    TrimDrops("", line, "");
    assert [line][..0] == [];
  }

  function DurationText(hours: Option<nat>): string
    requires hours.Some? ==> hours.value < 100
  {
    match hours case Some(n) => Print(n) + "h" case None => ""
  }

  lemma PrintedLines(question: string, options: seq<string>, hours: Option<nat>, config: PollConfig)
      returns (rest: seq<string>)
    requires CanBePrinted(question, options, hours, config)
    ensures Trimmed(Lines(Printed(question, options, hours))) == [question] + (DashLines(options) + rest)
    ensures if hours.None? then rest == []
            else |rest| == 1 && !StartsWithDash(rest[0]) && ParseDuration(rest[0]) == Ok(HOUR * hours.value)
  {
    var tail := DurationText(hours);
    rest := Trimmed(Lines(tail));
    ConcatAssociates(question + "\n", PrintedOptions(options), tail);
    TrimDrops("", question, "");
    assert "" + question + "" == question;
    ReadOneLine(question, PrintedOptions(options) + tail, question);
    PrintedOptionsRead(options, tail);
    if hours.Some? {
      DurationRead(hours.value);
    }
  }

  lemma {:induction false} DashLinesRead(options: seq<string>)
    requires forall o | o in options :: IsPlainLine(o)
    ensures (forall l | l in DashLines(options) :: StartsWithDash(l)) && OptionTexts(DashLines(options)) == options
  {
    forall i | 0 <= i < |options| ensures OptionText(DashLines(options)[i]) == options[i] {
      assert options[i] in options;
      DashLineRead(options[i]);
    }
  }

  /** Parsing the printed form of a poll gives the poll back. */
  lemma ParseUndoesPrint(question: string, options: seq<string>, hours: Option<nat>, config: PollConfig,
                         r: Result<Poll, PollError>)
    requires CanBePrinted(question, options, hours, config)
    requires Means(Printed(question, options, hours), config, r)
    ensures r == Ok(Poll(question, options, if hours.Some? then HOUR * hours.value else config.defaultDuration))
  {
    var rest := PrintedLines(question, options, hours, config);
    var q, o := [question], DashLines(options);
    DashLinesRead(options);
    ConcatAssociates(q, o, rest);
    MeaningIsUnique(Printed(question, options, hours), config, r, q, o, rest);
    PrintedMeaning(question, options, hours, config, rest);
  }

  lemma PrintedMeaning(question: string, options: seq<string>, hours: Option<nat>, config: PollConfig,
                       rest: seq<string>)
    requires CanBePrinted(question, options, hours, config)
    requires forall l | l in DashLines(options) :: StartsWithDash(l)
    requires OptionTexts(DashLines(options)) == options
    requires if hours.None? then rest == []
             else |rest| == 1 && ParseDuration(rest[0]) == Ok(HOUR * hours.value)
    ensures Meaning(config, [question], DashLines(options), rest)
            == Ok(Poll(question, options, if hours.Some? then HOUR * hours.value else config.defaultDuration))
  {}
}
