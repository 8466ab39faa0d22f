/** Composing undoes decomposing and the other way round (farcasterapi/hub/helpers.go). */
module MentionRoundTrip {
  import opened Prelude
  import opened Mentions

  /** A mention, followed by the rest of the text. */
  ghost function Mention(n: Bytes, rest: Bytes): Bytes {
    [AT] + n + rest
  }

  lemma MentionInside(front: Bytes, n: Bytes, rest: Bytes)
    ensures front + [AT] + n + rest == front + Mention(n, rest)
  {}

  /** The text from byte `base` on, with each name written at its position. */
  ghost function Weave(text: Bytes, ps: seq<nat>, ns: seq<Bytes>, base: nat): Bytes
    requires |ps| == |ns| && base <= |text|
    requires ps != [] ==> base <= ps[0]
    requires InOrder(ps, |text|)
    decreases |ps|
  {
    if ps == [] then text[base..]
    else text[base..ps[0]] + Mention(ns[0], Weave(text, ps[1..], ns[1..], ps[0]))
  }

  ghost predicate InOrder(ps: seq<nat>, bound: nat) {
    && (forall i | 0 <= i < |ps| :: ps[i] <= bound)
    && (forall i, j | 0 <= i < j < |ps| :: ps[i] <= ps[j])
  }

  lemma {:induction false} WeaveInsert(text: Bytes, ps: seq<nat>, ns: seq<Bytes>, base: nat, pos: nat)
    requires |ps| == |ns| && InOrder(ps, |text|) && base <= pos <= |text|
    requires ps != [] ==> pos <= ps[0]
    ensures |Weave(text, ps, ns, base)| >= pos - base
    ensures Weave(text, ps, ns, base)[..pos - base] == text[base..pos]
    ensures Weave(text, ps, ns, base)[pos - base..] == Weave(text, ps, ns, pos)
  {
    if ps != [] {
      var rest := Mention(ns[0], Weave(text, ps[1..], ns[1..], ps[0]));
      CutInFront(text, base, pos, ps[0], rest);
    }
  }

  lemma CutInFront(text: Bytes, base: nat, pos: nat, end: nat, rest: Bytes)
    requires base <= pos <= end <= |text|
    ensures (text[base..end] + rest)[..pos - base] == text[base..pos]
    ensures (text[base..end] + rest)[pos - base..] == text[pos..end] + rest
  {}

  /** Joining a text to the front of another moves the positions along. */
  lemma {:induction false} WeaveShift(front: Bytes, text: Bytes, ps: seq<nat>, ns: seq<Bytes>, base: nat)
    requires |ps| == |ns| && InOrder(ps, |text|) && base <= |text|
    requires ps != [] ==> base <= ps[0]
    ensures InOrder(AddToAll(ps, |front|), |front + text|)
    ensures Weave(front + text, AddToAll(ps, |front|), ns, |front| + base) == Weave(text, ps, ns, base)
    decreases |ps|
  {
    OrderMoves(ps, |text|, |front|);
    if ps == [] {
      TailBehind(front, text, base);
    } else {
      var qs := AddToAll(ps, |front|);
      WeaveShift(front, text, ps[1..], ns[1..], ps[0]);
      AddToTail(ps, |front|);
      WeaveShiftStep(front, text, ps, qs, ns, base);
    }
  }

  lemma TailBehind(front: Bytes, text: Bytes, base: nat)
    requires base <= |text|
    ensures (front + text)[|front| + base..] == text[base..]
  {}

  lemma OrderMoves(ps: seq<nat>, bound: nat, n: nat)
    requires InOrder(ps, bound)
    ensures InOrder(AddToAll(ps, n), n + bound)
  {}

  lemma WeaveShiftStep(front: Bytes, text: Bytes, ps: seq<nat>, qs: seq<nat>, ns: seq<Bytes>, base: nat)
    requires |ps| == |qs| == |ns| && ps != [] && InOrder(ps, |text|) && InOrder(qs, |front + text|)
    requires base <= ps[0] && qs[0] == |front| + ps[0]
    requires Weave(front + text, qs[1..], ns[1..], qs[0]) == Weave(text, ps[1..], ns[1..], ps[0])
    ensures Weave(front + text, qs, ns, |front| + base) == Weave(text, ps, ns, base)
  {
    var rest := Mention(ns[0], Weave(text, ps[1..], ns[1..], ps[0]));
    SliceBehind(front, text, base, ps[0]);
    assert Weave(text, ps, ns, base) == text[base..ps[0]] + rest;
    assert Weave(front + text, qs, ns, |front| + base) == (front + text)[|front| + base..|front| + ps[0]] + rest;
  }

  lemma SliceBehind(front: Bytes, text: Bytes, i: nat, j: nat)
    requires i <= j <= |text|
    ensures (front + text)[|front| + i..|front| + j] == text[i..j]
  {}

  lemma AddToTail(ps: seq<nat>, n: nat)
    requires ps != []
    ensures AddToAll(ps, n)[1..] == AddToAll(ps[1..], n)
  {}

  // ---------------------------------------- the backwards loop weaves the names in

  ghost predicate LeadingBot(bot: nat, body: CastBody)
    requires |body.mentions| == |body.mentionsPositions|
  {
    body.mentions != [] && body.mentionsPositions[0] == 0 && body.mentions[0] == bot
  }

  /** Every mention that the loop does not skip has a known name, the one given. */
  ghost predicate NamesAre(bot: nat, name: NameService, body: CastBody, ns: seq<Bytes>)
    requires |body.mentions| == |body.mentionsPositions|
  {
    && |ns| == |body.mentions|
    && forall i | 0 <= i < |ns| :: name(body.mentions[i]) == Some(ns[i]) || (i == 0 && LeadingBot(bot, body))
  }

  ghost predicate Increasing(ps: seq<nat>, bound: nat) {
    && (forall i | 0 <= i < |ps| :: ps[i] <= bound)
    && (forall i, j | 0 <= i < j < |ps| :: ps[i] < ps[j])
  }

  lemma WeaveStep(text: Bytes, ps: seq<nat>, ns: seq<Bytes>, i: nat)
    requires i < |ps| == |ns| && Increasing(ps, |text|)
    ensures Weave(text, ps[i..], ns[i..], 0)
            == text[0..ps[i]] + Mention(ns[i], Weave(text, ps[i + 1..], ns[i + 1..], ps[i]))
  {
    assert ps[i..][1..] == ps[i + 1..] && ns[i..][1..] == ns[i + 1..];
  }

  lemma {:induction false} ComposedIsWoven(bot: nat, name: NameService, body: CastBody, ns: seq<Bytes>, i: nat)
    requires |body.mentions| == |body.mentionsPositions| && NamesAre(bot, name, body, ns)
    requires Increasing(body.mentionsPositions, |body.text|)
    requires i <= |ns| && (i == 0 ==> !LeadingBot(bot, body))
    ensures ComposedFrom(bot, name, body, i) == Content(Weave(body.text, body.mentionsPositions[i..], ns[i..], 0))
    decreases |ns| - i
  {
    var ps := body.mentionsPositions;
    if i < |ns| {
      ComposedIsWoven(bot, name, body, ns, i + 1);
      assert i > 0 ==> ps[0] < ps[i];
      InsertOne(body.text, ps, ns, i);
    }
  }

  /** One round of the backwards loop puts one mention in place. */
  lemma InsertOne(text: Bytes, ps: seq<nat>, ns: seq<Bytes>, i: nat)
    requires i < |ps| == |ns| && Increasing(ps, |text|)
    ensures var content := Weave(text, ps[i + 1..], ns[i + 1..], 0);
            && ps[i] <= |content|
            && content[..ps[i]] + [AT] + ns[i] + content[ps[i]..] == Weave(text, ps[i..], ns[i..], 0)
  {
    WeaveInsert(text, ps[i + 1..], ns[i + 1..], 0, ps[i]);
    WeaveStep(text, ps, ns, i);
    MentionInside(text[0..ps[i]], ns[i], Weave(text, ps[i + 1..], ns[i + 1..], ps[i]));
  }

  /** What composing yields: the names woven into the text, except a mention of the bot itself at the start. */
  lemma ComposedContent(bot: nat, name: NameService, body: CastBody, ns: seq<Bytes>)
    requires |body.mentions| == |body.mentionsPositions| && NamesAre(bot, name, body, ns)
    requires Increasing(body.mentionsPositions, |body.text|)
    ensures var k := if LeadingBot(bot, body) then 1 else 0;
            ComposedFrom(bot, name, body, 0) == Content(Weave(body.text, body.mentionsPositions[k..], ns[k..], 0))
  {
    if LeadingBot(bot, body) {
      ComposedIsWoven(bot, name, body, ns, 1);
    } else {
      ComposedIsWoven(bot, name, body, ns, 0);
    }
  }

  // ------------------------------------------------- which bodies decomposing makes

  ghost predicate IsName(n: Bytes) {
    n != [] && forall i | 0 <= i < |n| :: !IsSpace(n[i])
  }

  /** A place where a mention can have been: before a space or the end, and not after an at sign. */
  ghost predicate IsSpot(text: Bytes, p: nat) {
    && p <= |text|
    && (p < |text| ==> IsSpace(text[p]))
    && (p > 0 ==> text[p - 1] != AT)
  }

  ghost predicate NoMention(text: Bytes) {
    forall i: nat :: !StartsAt(text, i)
  }

  ghost predicate WellFormed(text: Bytes, ps: seq<nat>, ns: seq<Bytes>) {
    && |ps| == |ns|
    && NoMention(text)
    && Increasing(ps, |text|)
    && (forall i | 0 <= i < |ps| :: IsSpot(text, ps[i]))
    && (forall i | 0 <= i < |ns| :: IsName(ns[i]))
  }

  lemma StripHead(s: Bytes)
    requires s != [] && IsSpace(s[0])
    ensures Strip(s) != [] && Strip(s)[0] == s[0]
    ensures Spots(s) != [] ==> Spots(s)[0] > 0
  {
    FirstMentionIsLeftmost(s);
  }

  lemma AfterMention(s: Bytes, a: nat, e: nat)
    requires FirstMention(s) == Some((a, e))
    ensures s[a] == AT && IsName(s[a + 1..e]) && (a > 0 ==> s[a - 1] != AT)
    ensures e < |s| ==> IsSpace(s[e])
  {
    FirstMentionIsLeftmost(s);
    assert a > 0 ==> !StartsAt(s, a - 1);
  }

  lemma NoMentionInPrefix(s: Bytes, a: nat)
    requires a <= |s| && forall i: nat | i < a :: !StartsAt(s, i)
    ensures NoMention(s[..a])
  {
    forall i: nat ensures !StartsAt(s[..a], i) {
      if i + 1 < a {
        assert !StartsAt(s, i);
      }
    }
  }

  lemma NoMentionJoined(front: Bytes, text: Bytes)
    requires NoMention(front) && NoMention(text)
    requires text != [] ==> IsSpace(text[0])
    ensures NoMention(front + text)
  {
    var k := |front|;
    forall i: nat ensures !StartsAt(front + text, i) {
      if i + 1 < k {
        assert !StartsAt(front, i);
      } else if i >= k {
        assert !StartsAt(text, i - k);
      }
    }
  }

  /** Facts about a text put together from a part before a mention and what is left after it. */
  lemma JoinedIsWellFormed(front: Bytes, text: Bytes, ps: seq<nat>, ns: seq<Bytes>, n: Bytes)
    requires WellFormed(text, ps, ns) && IsName(n)
    requires NoMention(front)
    requires front != [] ==> front[|front| - 1] != AT
    requires text != [] ==> IsSpace(text[0])
    requires ps != [] ==> ps[0] > 0
    ensures WellFormed(front + text, [|front|] + AddToAll(ps, |front|), [n] + ns)
  {
    var all, qs := front + text, [|front|] + AddToAll(ps, |front|);
    NoMentionJoined(front, text);
    MovedIncreasing(ps, |text|, |front|);
    forall i | 0 <= i < |qs| ensures IsSpot(all, qs[i]) {
      if i > 0 {
        SpotMoves(front, text, ps[i - 1]);
      } else {
        FirstSpot(front, text);
      }
    }
  }

  lemma MovedIncreasing(ps: seq<nat>, bound: nat, n: nat)
    requires Increasing(ps, bound) && (ps != [] ==> ps[0] > 0)
    ensures Increasing([n] + AddToAll(ps, n), n + bound)
  {}

  lemma FirstSpot(front: Bytes, text: Bytes)
    requires front != [] ==> front[|front| - 1] != AT
    requires text != [] ==> IsSpace(text[0])
    ensures IsSpot(front + text, |front|)
  {}

  lemma SpotMoves(front: Bytes, text: Bytes, p: nat)
    requires IsSpot(text, p) && p > 0
    ensures IsSpot(front + text, p + |front|)
  {}

  /** What decomposing leaves: strictly increasing positions within the stripped text, each before
      a space or the end and not after an at sign, and no mention in the text. */
  lemma {:induction false} PartsAreWellFormed(s: Bytes)
    ensures WellFormed(Strip(s), Spots(s), Names(s))
    decreases |s|
  {
    FirstMentionIsLeftmost(s);
    if FirstMention(s).Some? {
      var (a, e) := FirstMention(s).value;
      var tail := s[e..];
      AfterMention(s, a, e);
      FirstAndRest(s);
      PartsAreWellFormed(tail);
      if tail != [] {
        StripHead(tail);
      }
      NoMentionInPrefix(s, a);
      JoinedIsWellFormed(s[..a], Strip(tail), Spots(tail), Names(tail), s[a + 1..e]);
    }
  }

  lemma WeaveFirst(front: Bytes, n: Bytes, text: Bytes, ps: seq<nat>, ns: seq<Bytes>)
    requires |ps| == |ns| && InOrder(ps, |text|)
    ensures var qs := [|front|] + AddToAll(ps, |front|);
            && InOrder(qs, |front + text|)
            && Weave(front + text, qs, [n] + ns, 0) == front + Mention(n, Weave(text, ps, ns, 0))
  {
    var qs := [|front|] + AddToAll(ps, |front|);
    WeaveShift(front, text, ps, ns, 0);
    DropFirst(|front|, AddToAll(ps, |front|));
    DropFirst(n, ns);
    assert (front + text)[0..|front|] == front;
  }

  lemma DropFirst<T>(x: T, s: seq<T>)
    ensures ([x] + s)[0] == x && ([x] + s)[1..] == s
  {}

  lemma Whole(s: Bytes, a: nat, e: nat)
    requires a < e <= |s| && s[a] == AT
    ensures s == s[..a] + Mention(s[a + 1..e], s[e..])
  {}

  /** Weaving the names back in restores the text. */
  lemma {:induction false} WovenPartsAreTheWhole(s: Bytes)
    ensures InOrder(Spots(s), |Strip(s)|)
    ensures Weave(Strip(s), Spots(s), Names(s), 0) == s
    decreases |s|
  {
    if FirstMention(s).Some? {
      var (a, e) := FirstMention(s).value;
      AfterMention(s, a, e);
      WovenPartsAreTheWhole(s[e..]);
      WovenStep(s, a, e);
      Whole(s, a, e);
    } else {
      assert s[0..] == s;
    }
  }

  lemma WovenStep(s: Bytes, a: nat, e: nat)
    requires FirstMention(s) == Some((a, e))
    requires InOrder(Spots(s[e..]), |Strip(s[e..])|)
    requires Weave(Strip(s[e..]), Spots(s[e..]), Names(s[e..]), 0) == s[e..]
    ensures InOrder(Spots(s), |Strip(s)|)
    ensures Weave(Strip(s), Spots(s), Names(s), 0) == s[..a] + Mention(s[a + 1..e], s[e..])
  {
    FirstAndRest(s);
    WeaveFirst(s[..a], s[a + 1..e], Strip(s[e..]), Spots(s[e..]), Names(s[e..]));
  }

  /** A bot mention at the very start is left out when composing. */
  lemma WovenWithoutTheFirst(s: Bytes)
    requires Spots(s) != [] && Spots(s)[0] == 0
    ensures InOrder(Spots(s)[1..], |Strip(s)|)
    ensures Weave(Strip(s), Spots(s)[1..], Names(s)[1..], 0) == s[FirstMention(s).value.1..]
  {
    var (a, e) := FirstMention(s).value;
    var tail := s[e..];
    FirstAndRest(s);
    WovenPartsAreTheWhole(tail);
    WeaveShift([], Strip(tail), Spots(tail), Names(tail), 0);
    assert Spots(s)[1..] == AddToAll(Spots(tail), 0) && Names(s)[1..] == Names(tail);
    assert Strip(s) == [] + Strip(tail);
  }

  /** The content, less a mention of the bot with which it may start. */
  ghost function WithoutLeadingBot(bot: nat, s: Bytes, fids: seq<nat>): Bytes {
    if FirstMention(s).Some? && FirstMention(s).value.0 == 0 && fids != [] && fids[0] == bot
    then s[FirstMention(s).value.1..]
    else s
  }

  /** Decomposing a content and composing the result gives the content back, byte for byte. */
  lemma ComposeUndoesDecompose(bot: nat, name: NameService, s: Bytes, fids: seq<nat>)
    requires Decomposed(s, fids).Ok?
    requires NamesAre(bot, name, Decomposed(s, fids).value, Names(s))
    ensures ComposedFrom(bot, name, Decomposed(s, fids).value, 0) == Content(WithoutLeadingBot(bot, s, fids))
  {
    var body := Decomposed(s, fids).value;
    if Names(s) == [] {
      assert FirstMention(s).None?;
    } else {
      PartsAreWellFormed(s);
      ComposedContent(bot, name, body, Names(s));
      if LeadingBot(bot, body) {
        WovenWithoutTheFirst(s);
      } else {
        WovenPartsAreTheWhole(s);
        assert Spots(s)[0..] == Spots(s) && Names(s)[0..] == Names(s);
      }
    }
  }

  // ------------------------------------------------- decomposing what was composed

  lemma FirstMentionIs(s: Bytes, a: nat, e: nat)
    requires StartsAt(s, a) && forall i: nat | i < a :: !StartsAt(s, i)
    requires a + 2 <= e <= |s| && forall i | a + 2 <= i < e :: !IsSpace(s[i])
    requires e < |s| ==> IsSpace(s[e])
    ensures FirstMention(s) == Some((a, e))
  {
    FirstStartIsFirst(s, 0);
    assert FirstStart(s, 0) == Some(a);
    RunEndIsEnd(s, a + 2);
  }

  lemma MentionParts(front: Bytes, n: Bytes, rest: Bytes, s: Bytes)
    requires s == front + Mention(n, rest)
    ensures |s| == |front| + 1 + |n| + |rest|
    ensures s[..|front|] == front && s[|front|] == AT
    ensures s[|front| + 1..|front| + 1 + |n|] == n && s[|front| + 1 + |n|..] == rest
  {}

  lemma FirstMentionOf(front: Bytes, n: Bytes, rest: Bytes, s: Bytes)
    requires s == front + Mention(n, rest)
    requires NoMention(front)
    requires front != [] ==> front[|front| - 1] != AT
    requires IsName(n) && (rest != [] ==> IsSpace(rest[0]))
    ensures var a, e := |front|, |front| + 1 + |n|;
            && FirstMention(s) == Some((a, e))
            && s[..a] == front && s[a + 1..e] == n && s[e..] == rest
  {
    var a, e := |front|, |front| + 1 + |n|;
    MentionParts(front, n, rest, s);
    NoStartBefore(front, s);
    NameInside(n, s, a);
    assert e < |s| ==> s[e] == s[e..][0];
    FirstMentionIs(s, a, e);
  }

  lemma NoStartBefore(front: Bytes, s: Bytes)
    requires front <= s && NoMention(front) && (front != [] ==> front[|front| - 1] != AT)
    ensures forall i: nat | i < |front| :: !StartsAt(s, i)
  {
    forall i: nat | i < |front| ensures !StartsAt(s, i) {
      assert !StartsAt(front, i);
    }
  }

  lemma NameInside(n: Bytes, s: Bytes, a: nat)
    requires IsName(n) && a + 1 + |n| <= |s| && s[a] == AT && s[a + 1..a + 1 + |n|] == n
    ensures StartsAt(s, a) && forall i | a < i < a + 1 + |n| :: !IsSpace(s[i])
  {
    forall i | a < i < a + 1 + |n| ensures !IsSpace(s[i]) {
      assert s[i] == n[i - a - 1];
    }
  }

  ghost predicate TakesApart(s: Bytes, text: Bytes, ps: seq<nat>, ns: seq<Bytes>) {
    Strip(s) == text && Spots(s) == ps && Names(s) == ns
  }

  ghost predicate WovenTakesApart(text: Bytes, ps: seq<nat>, ns: seq<Bytes>) {
    && |ps| == |ns| && InOrder(ps, |text|)
    && TakesApart(Weave(text, ps, ns, 0), text, ps, ns)
  }

  lemma {:induction false} DecomposeWoven(text: Bytes, ps: seq<nat>, ns: seq<Bytes>)
    requires WellFormed(text, ps, ns)
    ensures WovenTakesApart(text, ps, ns)
    decreases |ps|
  {
    if ps == [] {
      assert text[0..] == text;
      FirstMentionIsLeftmost(text);
    } else {
      var front, text', ps' := AtFirstSpot(text, ps, ns);
      DecomposeWoven(text', ps', ns[1..]);
      DecomposeStep(front, ns[0], text', ps', ns[1..]);
    }
  }

  /** A well-formed body, cut at its first position. */
  lemma AtFirstSpot(text: Bytes, ps: seq<nat>, ns: seq<Bytes>) returns (front: Bytes, text': Bytes, ps': seq<nat>)
    requires WellFormed(text, ps, ns) && ps != []
    ensures text == front + text' && ps == [|front|] + AddToAll(ps', |front|) && ns == [ns[0]] + ns[1..]
    ensures NoMention(front) && (front != [] ==> front[|front| - 1] != AT)
    ensures WellFormed(text', ps', ns[1..]) && (text' != [] ==> IsSpace(text'[0]))
    ensures |ps'| < |ps| && forall i | 0 <= i < |ps'| :: ps'[i] > 0
  {
    var a := ps[0];
    front, text' := text[..a], text[a..];
    ps' := LessFirst(ps);
    NoMentionInPrefix(text, a);
    assert IsSpot(text, a);
    TailIsWellFormed(text, ps, ns, ps');
  }

  lemma LessFirst(ps: seq<nat>) returns (ps': seq<nat>)
    requires ps != [] && forall i | 0 <= i < |ps| :: ps[0] <= ps[i]
    ensures |ps'| == |ps| - 1 && (forall i | 0 <= i < |ps'| :: ps'[i] == ps[i + 1] - ps[0])
    ensures ps == [ps[0]] + AddToAll(ps', ps[0])
  {
    ps' := seq(|ps| - 1, i requires 0 <= i < |ps| - 1 => ps[i + 1] - ps[0]);
  }

  lemma DecomposeStep(front: Bytes, n: Bytes, text: Bytes, ps: seq<nat>, ns: seq<Bytes>)
    requires WellFormed(text, ps, ns) && (text != [] ==> IsSpace(text[0]))
    requires forall i | 0 <= i < |ps| :: ps[i] > 0
    requires NoMention(front) && (front != [] ==> front[|front| - 1] != AT) && IsName(n)
    requires WovenTakesApart(text, ps, ns)
    ensures WovenTakesApart(front + text, [|front|] + AddToAll(ps, |front|), [n] + ns)
  {
    var rest := Weave(text, ps, ns, 0);
    RestStartsWithSpace(text, ps, ns);
    WeaveFirst(front, n, text, ps, ns);
    TakeApartStep(front, n, rest, text, ps, ns, front + Mention(n, rest));
  }

  lemma TakeApartStep(front: Bytes, n: Bytes, rest: Bytes, text: Bytes, ps: seq<nat>, ns: seq<Bytes>, s: Bytes)
    requires s == front + Mention(n, rest) && TakesApart(rest, text, ps, ns)
    requires NoMention(front) && (front != [] ==> front[|front| - 1] != AT) && IsName(n)
    requires rest != [] ==> IsSpace(rest[0])
    ensures TakesApart(s, front + text, [|front|] + AddToAll(ps, |front|), [n] + ns)
  {
    FirstMentionOf(front, n, rest, s);
    TakeApartAt(s, |front|, |front| + 1 + |n|, text, ps, ns);
  }

  lemma TakeApartAt(s: Bytes, a: nat, e: nat, text: Bytes, ps: seq<nat>, ns: seq<Bytes>)
    requires FirstMention(s) == Some((a, e)) && TakesApart(s[e..], text, ps, ns)
    ensures TakesApart(s, s[..a] + text, [a] + AddToAll(ps, a), [s[a + 1..e]] + ns)
  {
    FirstAndRest(s);
  }

  lemma TailIsWellFormed(text: Bytes, ps: seq<nat>, ns: seq<Bytes>, ps': seq<nat>)
    requires WellFormed(text, ps, ns) && ps != [] && |ps'| == |ps| - 1
    requires forall i | 0 <= i < |ps'| :: ps'[i] == ps[i + 1] - ps[0]
    ensures WellFormed(text[ps[0]..], ps', ns[1..])
    ensures forall i | 0 <= i < |ps'| :: ps'[i] > 0
    ensures text[ps[0]..] != [] ==> IsSpace(text[ps[0]..][0])
  {
    var a, text' := ps[0], text[ps[0]..];
    assert IsSpot(text, a);
    forall i: nat ensures !StartsAt(text', i) {
      if i + 1 < |text'| {
        assert !StartsAt(text, i + a);
      }
    }
    forall i | 0 <= i < |ps'| ensures IsSpot(text', ps'[i]) {
      assert IsSpot(text, ps[i + 1]);
    }
  }

  lemma RestStartsWithSpace(text: Bytes, ps: seq<nat>, ns: seq<Bytes>)
    requires WellFormed(text, ps, ns) && (text != [] ==> IsSpace(text[0]))
    requires forall i | 0 <= i < |ps| :: ps[i] > 0
    ensures InOrder(ps, |text|)
    ensures Weave(text, ps, ns, 0) != [] ==> IsSpace(Weave(text, ps, ns, 0)[0])
  {}

  // ------------------------------------- a body that comes back has its own names

  function Spaces(s: Bytes): nat {
    if s == [] then 0 else (if IsSpace(s[0]) then 1 else 0) + Spaces(s[1..])
  }

  lemma {:induction false} SpacesConcat(a: Bytes, b: Bytes)
    ensures Spaces(a + b) == Spaces(a) + Spaces(b)
  {
    if a == [] {
      assert a + b == b;
    } else {
      assert (a + b)[1..] == a[1..] + b;
      SpacesConcat(a[1..], b);
    }
  }

  ghost predicate HasNoSpace(n: Bytes) {
    forall i | 0 <= i < |n| :: !IsSpace(n[i])
  }

  lemma {:induction false} NoSpaces(s: Bytes)
    ensures Spaces(s) == 0 <==> HasNoSpace(s)
  {
    if s != [] {
      NoSpaces(s[1..]);
      assert forall i | 1 <= i < |s| :: s[i] == s[1..][i - 1];
    }
  }

  function NameSpaces(ns: seq<Bytes>): nat {
    if ns == [] then 0 else Spaces(ns[0]) + NameSpaces(ns[1..])
  }

  lemma {:induction false} NoNameSpaces(ns: seq<Bytes>)
    ensures NameSpaces(ns) == 0 <==> forall i | 0 <= i < |ns| :: HasNoSpace(ns[i])
  {
    if ns != [] {
      NoSpaces(ns[0]);
      NoNameSpaces(ns[1..]);
      assert forall i | 1 <= i < |ns| :: ns[i] == ns[1..][i - 1];
    }
  }

  lemma MentionSpaces(front: Bytes, n: Bytes, rest: Bytes)
    ensures Spaces(front + Mention(n, rest)) == Spaces(front) + Spaces(n) + Spaces(rest)
  {
    SpacesConcat(front, Mention(n, rest));
    SpacesConcat([AT] + n, rest);
    SpacesConcat([AT], n);
    assert [AT][1..] == [];
  }

  /** Weaving adds the spaces of the names to those of the text. */
  lemma {:induction false} SpacesOfWeave(text: Bytes, ps: seq<nat>, ns: seq<Bytes>, base: nat)
    requires |ps| == |ns| && InOrder(ps, |text|) && base <= |text|
    requires ps != [] ==> base <= ps[0]
    ensures Spaces(Weave(text, ps, ns, base)) == Spaces(text[base..]) + NameSpaces(ns)
    decreases |ps|
  {
    if ps != [] {
      var rest := Weave(text, ps[1..], ns[1..], ps[0]);
      SpacesOfWeave(text, ps[1..], ns[1..], ps[0]);
      MentionSpaces(text[base..ps[0]], ns[0], rest);
      SpacesConcat(text[base..ps[0]], text[ps[0]..]);
      assert text[base..] == text[base..ps[0]] + text[ps[0]..];
    }
  }

  lemma SplitAtSpace(front: Bytes, n: Bytes, rest: Bytes, n': Bytes, rest': Bytes)
    requires front + Mention(n, rest) == front + Mention(n', rest')
    requires HasNoSpace(n) && HasNoSpace(n')
    requires (rest != [] ==> IsSpace(rest[0])) && (rest' != [] ==> IsSpace(rest'[0]))
    ensures n == n' && rest == rest'
  {
    var s, k := front + Mention(n, rest), |front| + 1;
    MentionParts(front, n, rest, s);
    MentionParts(front, n', rest', s);
    assert |n| < |s| - k ==> IsSpace(s[k + |n|]);
    assert |n'| < |s| - k ==> IsSpace(s[k + |n'|]);
    assert forall i | 0 <= i < |n| :: s[k + i] == n[i];
    assert forall i | 0 <= i < |n'| :: s[k + i] == n'[i];
  }

  lemma WeaveStartsWithSpace(text: Bytes, ps: seq<nat>, ns: seq<Bytes>, base: nat)
    requires |ps| == |ns| && InOrder(ps, |text|) && base <= |text|
    requires ps != [] ==> base < ps[0]
    requires base < |text| ==> IsSpace(text[base])
    ensures Weave(text, ps, ns, base) != [] ==> IsSpace(Weave(text, ps, ns, base)[0])
  {}

  /** At the same places of the same text, names without spaces are determined by the result. */
  lemma {:induction false} SameNames(text: Bytes, ps: seq<nat>, ns: seq<Bytes>, ns': seq<Bytes>, base: nat)
    requires |ps| == |ns| == |ns'| && Increasing(ps, |text|) && base <= |text|
    requires ps != [] ==> base <= ps[0]
    requires forall i | 0 <= i < |ps| :: IsSpot(text, ps[i])
    requires forall i | 0 <= i < |ns| :: HasNoSpace(ns[i]) && HasNoSpace(ns'[i])
    requires Weave(text, ps, ns, base) == Weave(text, ps, ns', base)
    ensures ns == ns'
    decreases |ps|
  {
    if ps != [] {
      var p, front := ps[0], text[base..ps[0]];
      var rest, rest' := Weave(text, ps[1..], ns[1..], p), Weave(text, ps[1..], ns'[1..], p);
      assert IsSpot(text, p) && HasNoSpace(ns[0]) && HasNoSpace(ns'[0]);
      WeaveStartsWithSpace(text, ps[1..], ns[1..], p);
      WeaveStartsWithSpace(text, ps[1..], ns'[1..], p);
      SplitAtSpace(front, ns[0], rest, ns'[0], rest');
      SameNames(text, ps[1..], ns[1..], ns'[1..], p);
      assert ns == [ns[0]] + ns[1..] && ns' == [ns'[0]] + ns'[1..];
    }
  }

  /** Names that weave into the same content as well-formed parts are the names of these parts. */
  lemma WovenNames(text: Bytes, ps: seq<nat>, ns: seq<Bytes>, parts: seq<Bytes>)
    requires WellFormed(text, ps, parts) && |ns| == |ps|
    requires Weave(text, ps, ns, 0) == Weave(text, ps, parts, 0)
    ensures ns == parts
  {
    SpacesOfWeave(text, ps, ns, 0);
    SpacesOfWeave(text, ps, parts, 0);
    forall i | 0 <= i < |parts| ensures HasNoSpace(parts[i]) {
      assert IsName(parts[i]);
    }
    NoNameSpaces(parts);
    NoNameSpaces(ns);
    SameNames(text, ps, ns, parts, 0);
  }

  /** If a body comes back from composing and decomposing, the names it was composed with are the
      mentions found in the content. */
  lemma ComesBackWithNames(bot: nat, name: NameService, body: CastBody, ns: seq<Bytes>, content: Bytes)
    requires |body.mentions| == |body.mentionsPositions| && NamesAre(bot, name, body, ns) && !LeadingBot(bot, body)
    requires ComposedFrom(bot, name, body, 0) == Content(content) && Decomposed(content, body.mentions) == Ok(body)
    ensures Names(content) == ns && WellFormed(body.text, body.mentionsPositions, ns)
  {
    var ps := body.mentionsPositions;
    PartsAreWellFormed(content);
    if Names(content) == [] {
      assert FirstMention(content).None?;
      assert Spots(content) == [] == ps && Strip(content) == content == body.text;
    } else {
      ComposedContent(bot, name, body, ns);
      assert ps[0..] == ps && ns[0..] == ns;
      WovenPartsAreTheWhole(content);
      WovenNames(body.text, ps, ns, Names(content));
    }
  }

  /** A body that starts with a mention of the bot does not come back: that mention is not composed. */
  lemma LeadingBotIsLost(bot: nat, name: NameService, body: CastBody, ns: seq<Bytes>, content: Bytes)
    requires |body.mentions| == |body.mentionsPositions| && NamesAre(bot, name, body, ns) && LeadingBot(bot, body)
    requires ComposedFrom(bot, name, body, 0) == Content(content)
    ensures Decomposed(content, body.mentions) != Ok(body)
  {
    if Decomposed(content, body.mentions) == Ok(body) {
      var ps := body.mentionsPositions;
      PartsAreWellFormed(content);
      ComposedContent(bot, name, body, ns);
      AfterTheFirst(body.text, ps, Names(content), ns);
      StartsWithAt(content);
      assert false;
    }
  }

  lemma AfterTheFirst(text: Bytes, ps: seq<nat>, parts: seq<Bytes>, ns: seq<Bytes>)
    requires WellFormed(text, ps, parts) && ps != [] && ps[0] == 0 && |ns| == |ps|
    ensures Weave(text, ps[1..], ns[1..], 0) != [] ==> IsSpace(Weave(text, ps[1..], ns[1..], 0)[0])
  {
    assert IsSpot(text, ps[0]);
    WeaveStartsWithSpace(text, ps[1..], ns[1..], 0);
  }

  lemma StartsWithAt(s: Bytes)
    requires Spots(s) != [] && Spots(s)[0] == 0
    ensures s != [] && s[0] == AT
  {
    var (a, e) := FirstMention(s).value;
    FirstAndRest(s);
    AfterMention(s, a, e);
  }

  /** Composing a body and decomposing the content gives the body back exactly when it is well formed
      and does not start with a mention of the bot; a position right after an at sign already breaks it. */
  lemma DecomposeUndoesComposeIff(bot: nat, name: NameService, body: CastBody, ns: seq<Bytes>)
    requires |body.mentions| == |body.mentionsPositions| && NamesAre(bot, name, body, ns)
    ensures var composed := ComposedFrom(bot, name, body, 0);
            composed.Content? && Decomposed(composed.bytes, body.mentions) == Ok(body)
            <==> WellFormed(body.text, body.mentionsPositions, ns) && !LeadingBot(bot, body)
  {
    var ps := body.mentionsPositions;
    var composed := ComposedFrom(bot, name, body, 0);
    if LeadingBot(bot, body) {
      if composed.Content? {
        LeadingBotIsLost(bot, name, body, ns, composed.bytes);
      }
    } else if WellFormed(body.text, ps, ns) {
      ComposedContent(bot, name, body, ns);
      assert ps[0..] == ps && ns[0..] == ns;
      DecomposeWoven(body.text, ps, ns);
    } else if composed.Content? && Decomposed(composed.bytes, body.mentions) == Ok(body) {
      ComesBackWithNames(bot, name, body, ns, composed.bytes);
      assert false;
    }
  }

  /** Only the mentioned names restore a content, whatever other names are tried. */
  lemma OnlyTheMentionedNamesRestore(s: Bytes, ns: seq<Bytes>)
    requires |ns| == |Names(s)|
    ensures InOrder(Spots(s), |Strip(s)|)
    ensures Weave(Strip(s), Spots(s), ns, 0) == s <==> ns == Names(s)
  {
    PartsAreWellFormed(s);
    WovenPartsAreTheWhole(s);
    if Weave(Strip(s), Spots(s), ns, 0) == s {
      WovenNames(Strip(s), Spots(s), ns, Names(s));
    }
  }

  /** An at sign right before a mention swallows it: the text of this body has no mention and its one
      position is at the end, and still it does not come back. */
  lemma AtSignBeforeAMention()
    ensures var body := CastBody([AT], [7], [1]);
            var content := ComposedFrom(0, (fid: nat) => Some([98]), body, 0);
            && NoMention(body.text)
            && content == Content([AT, AT, 98])
            && Decomposed(content.bytes, body.mentions) != Ok(body)
  {
    var body, name := CastBody([AT], [7], [1]), (fid: nat) => Some([98 as Byte]);
    assert ComposedFrom(0, name, body, 1) == Content([AT]);
    assert [AT][..1] + [AT] + [98] + [AT][1..] == [AT, AT, 98];
    assert !IsSpot(body.text, 1);
    DecomposeUndoesComposeIff(0, name, body, [[98]]);
    assert Names([AT, AT, 98]) != [] ==> !WellFormed(body.text, [1], Names([AT, AT, 98]));
    PartsAreWellFormed([AT, AT, 98]);
  }
}
