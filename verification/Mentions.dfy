/** Mentions in the text of a cast: taking them out and putting them back
    (farcasterapi/hub/helpers.go). Texts are byte strings, as positions count bytes. */
module Mentions {
  import opened Prelude

  newtype Byte = b: int | 0 <= b < 256
  type Bytes = seq<Byte>

  const AT: Byte := 64

  /** The bytes that the class \S of the mention pattern excludes. */
  predicate IsSpace(b: Byte) {
    b == 9 || b == 10 || b == 12 || b == 13 || b == 32
  }

  /** The bytes that matter, as characters. */
  lemma MentionBytes(b: Byte)
    ensures AT as int == '@' as int
    ensures IsSpace(b) <==> b as int in {'\t' as int, '\n' as int, 12, '\r' as int, ' ' as int}
  {}

  // ---------------------------------------------------------- the mention pattern

  /** A mention starts here: an at sign directly followed by something other than a space. */
  predicate StartsAt(s: Bytes, i: nat) {
    i + 1 < |s| && s[i] == AT && !IsSpace(s[i + 1])
  }

  function FirstStart(s: Bytes, from: nat): (r: Option<nat>)
    requires from <= |s|
    ensures r.Some? ==> r.value + 1 < |s|
    decreases |s| - from
  {
    if StartsAt(s, from) then Some(from)
    else if from == |s| then None
    else FirstStart(s, from + 1)
  }

  lemma {:induction false} FirstStartIsFirst(s: Bytes, from: nat)
    requires from <= |s|
    ensures var r := FirstStart(s, from);
            && (r.Some? ==> from <= r.value && StartsAt(s, r.value))
            && (r.Some? ==> forall i: nat | from <= i < r.value :: !StartsAt(s, i))
            && (r.None? ==> forall i: nat | from <= i :: !StartsAt(s, i))
    decreases |s| - from
  {
    if !StartsAt(s, from) && from < |s| {
      FirstStartIsFirst(s, from + 1);
    }
  }

  /** The first space at or after `from`, or the end of the text. */
  function RunEnd(s: Bytes, from: nat): (r: nat)
    requires from <= |s|
    ensures from <= r <= |s|
    decreases |s| - from
  {
    if from == |s| || IsSpace(s[from]) then from else RunEnd(s, from + 1)
  }

  lemma {:induction false} RunEndIsEnd(s: Bytes, from: nat)
    requires from <= |s|
    ensures RunEnd(s, from) < |s| ==> IsSpace(s[RunEnd(s, from)])
    ensures forall i | from <= i < RunEnd(s, from) :: !IsSpace(s[i])
    decreases |s| - from
  {
    if from < |s| && !IsSpace(s[from]) {
      RunEndIsEnd(s, from + 1);
    }
  }

  /** The leftmost, longest match of the pattern: where it begins and where it ends. */
  function FirstMention(s: Bytes): (r: Option<(nat, nat)>)
    ensures r.Some? ==> r.value.0 + 1 < r.value.1 <= |s|
  {
    match FirstStart(s, 0)
    case Some(i) => Some((i, RunEnd(s, i + 2)))
    case None => None
  }

  /** The match begins at the first start and runs up to the next space. */
  lemma FirstMentionIsLeftmost(s: Bytes)
    ensures FirstMention(s).None? ==> forall i: nat :: !StartsAt(s, i)
    ensures FirstMention(s).Some? ==>
              var (a, e) := FirstMention(s).value;
              && StartsAt(s, a) && (forall i: nat | i < a :: !StartsAt(s, i))
              && (e < |s| ==> IsSpace(s[e])) && (forall i | a < i < e :: !IsSpace(s[i]))
  {
    FirstStartIsFirst(s, 0);
    if FirstMention(s).Some? {
      RunEndIsEnd(s, FirstMention(s).value.0 + 2);
    }
  }

  function Shift(locations: seq<(nat, nat)>, n: nat): (r: seq<(nat, nat)>)
    ensures |r| == |locations|
    ensures forall i | 0 <= i < |r| :: r[i].0 == locations[i].0 + n && r[i].1 == locations[i].1 + n
  {
    if locations == [] then []
    else [(locations[0].0 + n, locations[0].1 + n)] + Shift(locations[1..], n)
  }

  /** All matches, left to right, without overlaps. */
  function FindAll(s: Bytes): seq<(nat, nat)>
    decreases |s|
  {
    match FirstMention(s)
    case Some((a, e)) => [(a, e)] + Shift(FindAll(s[e..]), e)
    case None => []
  }

  /** The text with every match removed. */
  function Strip(s: Bytes): Bytes
    decreases |s|
  {
    match FirstMention(s)
    case Some((a, e)) => s[..a] + Strip(s[e..])
    case None => s
  }

  /** The mentioned names, without the at sign. */
  function Names(s: Bytes): seq<Bytes>
    decreases |s|
  {
    match FirstMention(s)
    case Some((a, e)) => [s[a + 1..e]] + Names(s[e..])
    case None => []
  }

  function AddToAll(ns: seq<nat>, n: nat): (r: seq<nat>)
    ensures |r| == |ns| && forall i | 0 <= i < |ns| :: r[i] == ns[i] + n
  {
    seq(|ns|, i requires 0 <= i < |ns| => ns[i] + n)
  }

  /** Where in the stripped text each mention was. */
  function Spots(s: Bytes): (r: seq<nat>)
    ensures |r| == |Names(s)| == |FindAll(s)|
    decreases |s|
  {
    match FirstMention(s)
    case Some((a, e)) => [a] + AddToAll(Spots(s[e..]), a)
    case None => []
  }

  // -------------------------------------------------------------- decomposing

  datatype CastBody = CastBody(text: Bytes, mentions: seq<nat>, mentionsPositions: seq<nat>)

  datatype MentionError = InvalidMentions

  function Decomposed(content: Bytes, fids: seq<nat>): Result<CastBody, MentionError> {
    if Names(content) == [] then Ok(CastBody(content, [], []))
    else if |fids| != |Names(content)| then Err(InvalidMentions)
    else Ok(CastBody(Strip(content), fids, Spots(content)))
  }

  /** The bytes taken up by the first `i` of some matches. */
  function RemovedBy(locations: seq<(nat, nat)>, i: nat): int
    requires i <= |locations|
  {
    if i == 0 then 0 else RemovedBy(locations, i - 1) + locations[i - 1].1 - locations[i - 1].0
  }

  lemma {:induction false} RemovedAfterFirst(a: nat, e: nat, tail: seq<(nat, nat)>, i: nat, locations: seq<(nat, nat)>)
    requires i <= |tail| && locations == [(a, e)] + Shift(tail, e)
    ensures RemovedBy(locations, i + 1) == e - a + RemovedBy(tail, i)
  {
    if i > 0 {
      RemovedAfterFirst(a, e, tail, i - 1, locations);
      assert locations[i] == Shift(tail, e)[i - 1];
    }
  }

  lemma FirstAndRest(s: Bytes)
    requires FirstMention(s).Some?
    ensures var (a, e) := FirstMention(s).value;
            && FindAll(s) == [(a, e)] + Shift(FindAll(s[e..]), e)
            && Spots(s) == [a] + AddToAll(Spots(s[e..]), a)
            && Names(s) == [s[a + 1..e]] + Names(s[e..])
            && Strip(s) == s[..a] + Strip(s[e..])
  {}

  /** Every position is the place of the mention less the bytes removed before it. */
  ghost predicate AreShiftedStarts(spots: seq<nat>, locations: seq<(nat, nat)>) {
    |spots| == |locations| && forall i | 0 <= i < |spots| :: spots[i] == locations[i].0 - RemovedBy(locations, i)
  }

  lemma ShiftedStartsAfterFirst(a: nat, e: nat, tail: seq<(nat, nat)>, spots: seq<nat>)
    requires AreShiftedStarts(spots, tail)
    ensures AreShiftedStarts([a] + AddToAll(spots, a), [(a, e)] + Shift(tail, e))
  {
    var ps, locations := [a] + AddToAll(spots, a), [(a, e)] + Shift(tail, e);
    forall i | 0 <= i < |ps| ensures ps[i] == locations[i].0 - RemovedBy(locations, i) {
      if i > 0 {
        ShiftedStart(a, e, tail, spots, i - 1, locations);
      }
    }
  }

  lemma ShiftedStart(a: nat, e: nat, tail: seq<(nat, nat)>, spots: seq<nat>, i: nat, locations: seq<(nat, nat)>)
    requires i < |tail| == |spots| && spots[i] == tail[i].0 - RemovedBy(tail, i)
    requires locations == [(a, e)] + Shift(tail, e)
    ensures spots[i] + a == locations[i + 1].0 - RemovedBy(locations, i + 1)
  {
    RemovedAfterFirst(a, e, tail, i, locations);
    assert locations[i + 1] == Shift(tail, e)[i];
  }

  /** A position of the stripped text is the place of the mention less the bytes removed before it. */
  lemma {:induction false} SpotsAreShiftedStarts(s: Bytes)
    ensures AreShiftedStarts(Spots(s), FindAll(s))
    decreases |s|
  {
    if FirstMention(s).Some? {
      var (a, e) := FirstMention(s).value;
      SpotsAreShiftedStarts(s[e..]);
      ShiftedStartsAfterFirst(a, e, FindAll(s[e..]), Spots(s[e..]));
      FirstAndRest(s);
    }
  }

  /** The loop of decomposeContent: each position is reduced by what was removed before it. */
  method MentionPositions(usernamePositions: seq<(nat, nat)>, ghost spots: seq<nat>) returns (positions: array<nat>)
    requires AreShiftedStarts(spots, usernamePositions)
    ensures fresh(positions) && positions[..] == spots
  {
    positions := new nat[|usernamePositions|];
    var removedChars: int := 0;
    for i := 0 to |usernamePositions|
      invariant removedChars == RemovedBy(usernamePositions, i)
      invariant positions[..i] == spots[..i]
    {
      var (start, end) := usernamePositions[i];
      SpotIsStart(spots, usernamePositions, i);
      positions[i] := start;
      if i > 0 {
        // cannot underflow: the result is a position of the stripped text
        positions[i] := start - removedChars;
      }
      removedChars := removedChars + end - start;
      PrefixSnoc(spots, i);
      assert positions[..i + 1] == positions[..i] + [positions[i]];
    }
    assert positions[..] == positions[..|usernamePositions|] && spots == spots[..|usernamePositions|];
  }

  lemma SpotIsStart(spots: seq<nat>, locations: seq<(nat, nat)>, i: nat)
    requires AreShiftedStarts(spots, locations) && i < |locations|
    ensures spots[i] == locations[i].0 - RemovedBy(locations, i)
    ensures RemovedBy(locations, i + 1) == RemovedBy(locations, i) + locations[i].1 - locations[i].0
  {}

  method DecomposeContent(content: Bytes, mentionFids: seq<nat>) returns (body: Result<CastBody, MentionError>)
    ensures body == Decomposed(content, mentionFids)
  {
    var usernamePositions := FindAll(content);
    if |usernamePositions| == 0 {
      return Ok(CastBody(content, [], []));
    }
    if |mentionFids| != |usernamePositions| {
      return Err(InvalidMentions);
    }
    SpotsAreShiftedStarts(content);
    var mentionsPositions := MentionPositions(usernamePositions, Spots(content));
    body := Ok(CastBody(Strip(content), mentionFids, mentionsPositions[..]));
  }

  /** Decomposing is refused exactly if there are mentions and not as many users. */
  lemma RefusedIff(content: Bytes, fids: seq<nat>)
    ensures Decomposed(content, fids).Err? <==> (exists i: nat :: StartsAt(content, i)) && |fids| != |FindAll(content)|
    ensures (forall i: nat :: !StartsAt(content, i)) ==> Decomposed(content, fids) == Ok(CastBody(content, [], []))
  {
    FirstMentionIsLeftmost(content);
    assert |Spots(content)| == |Names(content)| == |FindAll(content)|;
    if FirstMention(content).Some? {
      FirstAndRest(content);
      assert StartsAt(content, FirstMention(content).value.0);
    }
  }

  // ---------------------------------------------------------------- composing

  datatype Composed = Content(bytes: Bytes) | LookupFailed | OutOfRange

  type NameService = nat -> Option<Bytes>

  /** The content once the mentions from number `i` on are back in place. */
  function ComposedFrom(bot: nat, name: NameService, body: CastBody, i: nat): Composed
    requires i <= |body.mentions|
    decreases |body.mentions| - i
  {
    if i == |body.mentions| then Content(body.text)
    else
      match ComposedFrom(bot, name, body, i + 1)
      case Content(content) =>
        if i >= |body.mentionsPositions| then OutOfRange
        else
          var fid, pos := body.mentions[i], body.mentionsPositions[i];
          if pos == 0 && fid == bot then Content(content)
          else if name(fid).None? then LookupFailed
          else if pos > |content| then OutOfRange
          else Content(content[..pos] + [AT] + name(fid).value + content[pos..])
      case failure => failure
  }

  method ComposeCastContent(bot: nat, name: NameService, body: Option<CastBody>) returns (r: Composed)
    ensures r == if body.Some? then ComposedFrom(bot, name, body.value, 0) else Content([])
  {
    if body.None? {
      return Content([]);
    }
    var CastBody(text, mentions, positions) := body.value;
    var content := text;
    var i := |mentions|;
    while i > 0
      invariant 0 <= i <= |mentions|
      invariant ComposedFrom(bot, name, body.value, i) == Content(content)
    {
      i := i - 1;
      if i >= |positions| {
        FailureIsFinal(bot, name, body.value, i);
        return OutOfRange;
      }
      if positions[i] == 0 && mentions[i] == bot {
        continue;
      }
      var user := name(mentions[i]);
      if user.None? {
        FailureIsFinal(bot, name, body.value, i);
        return LookupFailed;
      }
      if positions[i] > |content| {
        FailureIsFinal(bot, name, body.value, i);
        return OutOfRange;
      }
      content := content[..positions[i]] + [AT] + user.value + content[positions[i]..];
    }
    r := Content(content);
  }

  lemma {:induction false} FailureIsFinal(bot: nat, name: NameService, body: CastBody, i: nat)
    requires i <= |body.mentions| && !ComposedFrom(bot, name, body, i).Content?
    ensures ComposedFrom(bot, name, body, 0) == ComposedFrom(bot, name, body, i)
  {
    if i > 0 {
      FailureIsFinal(bot, name, body, i - 1);
    }
  }

  /** The mention is of the bot, at the very start of the text. */
  predicate IsLeftOut(bot: nat, body: CastBody, i: nat)
    requires i < |body.mentions| && i < |body.mentionsPositions|
  {
    body.mentionsPositions[i] == 0 && body.mentions[i] == bot
  }

  /** The length of the content once the mentions from number `i` on are back in place. */
  function Grown(bot: nat, name: NameService, body: CastBody, i: nat): nat
    requires i <= |body.mentions|
    decreases |body.mentions| - i
  {
    if i == |body.mentions| then |body.text|
    else
      Grown(bot, name, body, i + 1)
      + if i < |body.mentionsPositions| && !IsLeftOut(bot, body, i) && name(body.mentions[i]).Some?
        then 1 + |name(body.mentions[i]).value| else 0
  }

  /** Mention number `i` has a position, and is left out or of a known user and within the content so far. */
  ghost predicate FitsIn(bot: nat, name: NameService, body: CastBody, i: nat)
    requires i < |body.mentions|
  {
    i < |body.mentionsPositions|
    && (IsLeftOut(bot, body, i)
        || (name(body.mentions[i]).Some? && body.mentionsPositions[i] <= Grown(bot, name, body, i + 1)))
  }

  lemma {:induction false} ComposesFromIff(bot: nat, name: NameService, body: CastBody, i: nat)
    requires i <= |body.mentions|
    ensures ComposedFrom(bot, name, body, i).Content?
            <==> forall j | i <= j < |body.mentions| :: FitsIn(bot, name, body, j)
    ensures ComposedFrom(bot, name, body, i).Content? ==>
              |ComposedFrom(bot, name, body, i).bytes| == Grown(bot, name, body, i)
    decreases |body.mentions| - i
  {
    if i < |body.mentions| {
      ComposesFromIff(bot, name, body, i + 1);
      if ComposedFrom(bot, name, body, i + 1).Content? {
        assert ComposedFrom(bot, name, body, i).Content? <==> FitsIn(bot, name, body, i);
      }
    }
  }

  /** Composing succeeds exactly if every mention fits, and then each one adds its length. */
  lemma ComposesIff(bot: nat, name: NameService, body: CastBody)
    ensures ComposedFrom(bot, name, body, 0).Content?
            <==> forall j | 0 <= j < |body.mentions| :: FitsIn(bot, name, body, j)
    ensures ComposedFrom(bot, name, body, 0).Content? ==>
              |ComposedFrom(bot, name, body, 0).bytes| == Grown(bot, name, body, 0)
  {
    ComposesFromIff(bot, name, body, 0);
  }

  /** The last mention that does not fit says how composing fails: by its user, if it has a position and
      only the user is unknown, else by a position. */
  lemma FailsBy(bot: nat, name: NameService, body: CastBody, i: nat)
    requires i < |body.mentions| && !FitsIn(bot, name, body, i)
    requires forall j | i < j < |body.mentions| :: FitsIn(bot, name, body, j)
    ensures ComposedFrom(bot, name, body, 0)
            == if i < |body.mentionsPositions| && name(body.mentions[i]).None? then LookupFailed else OutOfRange
  {
    ComposesFromIff(bot, name, body, i + 1);
    FailureIsFinal(bot, name, body, i);
  }
}
