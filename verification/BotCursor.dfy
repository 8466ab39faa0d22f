/** The bot's polling cursor over the mentions feed (bot/bot.go, farcasterapi/hub/hub.go). */
module BotCursor {

  /** Seconds between the Unix epoch and the Farcaster epoch. */
  const FARCASTER_EPOCH: nat := 1609459200

  /** The Farcaster epoch starts with the year 2021: 51 years, 13 of them leap years, of 86400-second days. */
  lemma EpochIsNewYear(t: nat)
    ensures FARCASTER_EPOCH == (51 * 365 + 13) * 86400
    ensures t > 0 ==> Relative(t + (51 * 365 + 13) * 86400) == t
  {}

  /** An entry of the feed; its time counts from the Farcaster epoch. Entries that are not casts
      with a text are not mentions. */
  datatype FeedEntry = FeedEntry(hash: string, timestamp: nat, isMention: bool)

  datatype Answer = Messages(messages: seq<FeedEntry>, last: nat) | NoNewCasts(last: nat) | Failure

  // ------------------------------------------------------------ asking the hub

  /** A time on either scale, on the scale of the Farcaster epoch. */
  function Relative(timestamp: nat): nat {
    if timestamp > FARCASTER_EPOCH then timestamp - FARCASTER_EPOCH else timestamp
  }

  /** The mentions of the feed later than `t`, in feed order. */
  function Later(feed: seq<FeedEntry>, t: nat): seq<FeedEntry> {
    if feed == [] then []
    else
      var last := feed[|feed| - 1];
      Later(feed[..|feed| - 1], t) + if last.isMention && last.timestamp > t then [last] else []
  }

  function Latest(messages: seq<FeedEntry>): nat {
    if messages == [] then 0
    else
      var before, last := Latest(messages[..|messages| - 1]), messages[|messages| - 1].timestamp;
      if last > before then last else before
  }

  lemma {:induction false} LatestIsMaximum(messages: seq<FeedEntry>)
    ensures forall m | m in messages :: m.timestamp <= Latest(messages)
    ensures messages != [] ==> exists m | m in messages :: m.timestamp == Latest(messages)
  {
    if messages != [] {
      var front, last := messages[..|messages| - 1], messages[|messages| - 1];
      assert messages == front + [last] && last in messages;
      LatestIsMaximum(front);
    }
  }

  function Asked(feed: seq<FeedEntry>, timestamp: nat): Answer {
    var found := Later(feed, Relative(timestamp));
    if found == [] then NoNewCasts(Relative(timestamp)) else Messages(found, Latest(found) + FARCASTER_EPOCH)
  }

  lemma LaterStep(feed: seq<FeedEntry>, i: nat, t: nat)
    requires i < |feed|
    ensures Later(feed[..i + 1], t)
            == if feed[i].isMention && feed[i].timestamp > t then Later(feed[..i], t) + [feed[i]]
               else Later(feed[..i], t)
  {
    assert feed[..i + 1][..i] == feed[..i];
  }

  lemma LatestSnoc(messages: seq<FeedEntry>, m: FeedEntry)
    ensures Latest(messages + [m]) == if m.timestamp > Latest(messages) then m.timestamp else Latest(messages)
  {
    assert (messages + [m])[..|messages|] == messages;
  }

  /** What the loop has found in the first `i` entries. */
  ghost predicate HasFound(feed: seq<FeedEntry>, i: nat, t: nat, messages: seq<FeedEntry>, last: nat) {
    i <= |feed| && messages == Later(feed[..i], t) && last == Latest(messages)
  }

  lemma EntrySkipped(feed: seq<FeedEntry>, i: nat, t: nat, messages: seq<FeedEntry>, last: nat)
    requires i < |feed| && HasFound(feed, i, t, messages, last)
    requires !(feed[i].isMention && feed[i].timestamp > t)
    ensures HasFound(feed, i + 1, t, messages, last)
  {
    LaterStep(feed, i, t);
  }

  lemma EntryTaken(feed: seq<FeedEntry>, i: nat, t: nat, messages: seq<FeedEntry>, last: nat)
    requires i < |feed| && HasFound(feed, i, t, messages, last)
    requires feed[i].isMention && feed[i].timestamp > t
    ensures HasFound(feed, i + 1, t, messages + [feed[i]], if feed[i].timestamp > last then feed[i].timestamp else last)
  {
    LaterStep(feed, i, t);
    LatestSnoc(messages, feed[i]);
  }

  lemma AllFound(feed: seq<FeedEntry>, t: nat, messages: seq<FeedEntry>, last: nat)
    requires HasFound(feed, |feed|, t, messages, last)
    ensures messages == Later(feed, t) && last == Latest(Later(feed, t))
  {
    assert feed[..|feed|] == feed;
  }

  method LastMentions(feed: seq<FeedEntry>, since: nat) returns (answer: Answer)
    ensures answer == Asked(feed, since)
  {
    var timestamp := since;
    if timestamp > FARCASTER_EPOCH {
      timestamp := timestamp - FARCASTER_EPOCH;
    }
    var lastTimestamp: nat, messages := 0, [];
    for i := 0 to |feed|
      invariant HasFound(feed, i, timestamp, messages, lastTimestamp)
    {
      if !feed[i].isMention {
        EntrySkipped(feed, i, timestamp, messages, lastTimestamp);
        continue;
      }
      if feed[i].timestamp > timestamp {
        EntryTaken(feed, i, timestamp, messages, lastTimestamp);
        messages := messages + [feed[i]];
        if feed[i].timestamp > lastTimestamp {
          lastTimestamp := feed[i].timestamp;
        }
      } else {
        EntrySkipped(feed, i, timestamp, messages, lastTimestamp);
      }
    }
    AllFound(feed, timestamp, messages, lastTimestamp);
    if |messages| == 0 {
      return NoNewCasts(timestamp);
    }
    answer := Messages(messages, lastTimestamp + FARCASTER_EPOCH);
  }

  // ------------------------------------------------------------------- the bot

  /** What the hub returns to one poll: the feed at that time, or an error. */
  datatype Poll = Feed(entries: seq<FeedEntry>) | Unreachable

  datatype BotState = BotState(lastCast: nat, sent: seq<FeedEntry>)

  /** One round of the loop. */
  function Polled(s: BotState, poll: Poll): BotState {
    match poll
    case Unreachable => s
    case Feed(entries) =>
      match Asked(entries, s.lastCast)
      case Messages(messages, last) => BotState(last, s.sent + messages)
      case NoNewCasts(last) => s.(lastCast := last)
      case Failure => s
  }

  function PolledAll(s: BotState, polls: seq<Poll>): BotState {
    if polls == [] then s else Polled(PolledAll(s, polls[..|polls| - 1]), polls[|polls| - 1])
  }

  class Bot {
    var lastCast: nat
    /** What has been sent on the channel so far. */
    var messages: seq<FeedEntry>

    constructor (now: nat)
      ensures State() == BotState(now, [])
    {
      lastCast := now;
      messages := [];
    }

    ghost function State(): BotState
      reads this
    {
      BotState(lastCast, messages)
    }

    method Start(polls: seq<Poll>)
      modifies this
      ensures State() == PolledAll(old(State()), polls)
    {
      for i := 0 to |polls|
        invariant State() == PolledAll(old(State()), polls[..i])
      {
        assert polls[..i + 1][..i] == polls[..i];
        var answer := Failure;
        if polls[i].Feed? {
          answer := LastMentions(polls[i].entries, lastCast);
        }
        if answer.Failure? {
          continue;
        }
        lastCast := answer.last;
        if answer.Messages? {
          for j := 0 to |answer.messages|
            invariant lastCast == answer.last
            invariant messages == PolledAll(old(State()), polls[..i]).sent + answer.messages[..j]
          {
            assert answer.messages[..j + 1] == answer.messages[..j] + [answer.messages[j]];
            messages := messages + [answer.messages[j]];
          }
          assert answer.messages[..|answer.messages|] == answer.messages;
        }
      }
      assert polls[..|polls|] == polls;
    }
  }

  // ------------------------------------------------- every mention exactly once

  lemma {:induction false} LaterConcat(f: seq<FeedEntry>, g: seq<FeedEntry>, t: nat)
    ensures Later(f + g, t) == Later(f, t) + Later(g, t)
  {
    if g == [] {
      assert f + g == f;
    } else {
      assert (f + g)[..|f + g| - 1] == f + g[..|g| - 1];
      LaterConcat(f, g[..|g| - 1], t);
    }
  }

  lemma {:induction false} LaterMembers(f: seq<FeedEntry>, t: nat)
    ensures forall m :: m in Later(f, t) <==> m in f && m.isMention && m.timestamp > t
  {
    if f != [] {
      var front, last := f[..|f| - 1], f[|f| - 1];
      assert f == front + [last];
      LaterMembers(front, t);
    }
  }

  /** Raising the bound drops nothing exactly when no mention lies in between. */
  lemma {:induction false} LaterSameIff(f: seq<FeedEntry>, t: nat, u: nat)
    requires t <= u
    ensures |Later(f, u)| <= |Later(f, t)|
    ensures Later(f, u) == Later(f, t) <==> forall m | m in Later(f, t) :: m.timestamp > u
  {
    if f != [] {
      var front, last := f[..|f| - 1], f[|f| - 1];
      assert f == front + [last];
      LaterSameIff(front, t, u);
      LaterMembers(front, u);
      if last.isMention && last.timestamp > t {
        assert last in Later(f, t);
      }
    }
  }

  /** The latest time the bot has dealt with. */
  function Cursor(start: nat, sent: seq<FeedEntry>): nat {
    if Latest(sent) > start then Latest(sent) else start
  }

  /** Everything in `feed` later than `start` has been sent, once and in order, and the cursor says so. */
  ghost predicate CaughtUp(s: BotState, feed: seq<FeedEntry>, start: nat) {
    s.sent == Later(feed, start) && Relative(s.lastCast) == Cursor(start, s.sent)
  }

  lemma {:induction false} LatestConcat(a: seq<FeedEntry>, b: seq<FeedEntry>)
    ensures Latest(a + b) == if Latest(a) > Latest(b) then Latest(a) else Latest(b)
  {
    if b == [] {
      assert a + b == a;
    } else {
      assert (a + b)[..|a + b| - 1] == a + b[..|b| - 1];
      LatestConcat(a, b[..|b| - 1]);
    }
  }

  lemma {:induction false} NothingLater(f: seq<FeedEntry>, t: nat)
    requires forall m | m in f && m.isMention :: m.timestamp <= t
    ensures Later(f, t) == []
  {
    if f != [] {
      var front, last := f[..|f| - 1], f[|f| - 1];
      assert f == front + [last];
      NothingLater(front, t);
    }
  }

  lemma PollAnswer(s: BotState, feed: seq<FeedEntry>, added: seq<FeedEntry>, start: nat)
    requires CaughtUp(s, feed, start)
    ensures Polled(s, Feed(feed + added)).sent == s.sent + Later(added, Cursor(start, s.sent))
  {
    var c := Cursor(start, s.sent);
    LatestIsMaximum(s.sent);
    LaterMembers(feed, start);
    NothingLater(feed, c);
    LaterConcat(feed, added, c);
    assert [] + Later(added, c) == Later(added, c);
  }

  lemma LatestSomething(found: seq<FeedEntry>, c: nat)
    requires found != [] && forall m | m in found :: m.timestamp > c
    ensures Latest(found) > c && Relative(Latest(found) + FARCASTER_EPOCH) == Latest(found)
  {
    LatestIsMaximum(found);
    assert found[0] in found;
  }

  /** A cursor is told apart from an absolute time only up to the epoch offset. */
  lemma RelativeIsFixedIff(c: nat)
    ensures Relative(c) == c <==> c <= FARCASTER_EPOCH
  {}

  /** After a poll the cursor is right, unless the poll was empty and the time is past the offset. */
  lemma PollCursorIff(s: BotState, feed: seq<FeedEntry>, added: seq<FeedEntry>, start: nat)
    requires CaughtUp(s, feed, start)
    ensures var s', c := Polled(s, Feed(feed + added)), Cursor(start, s.sent);
            Relative(s'.lastCast) == Cursor(start, s'.sent) <==> (Later(added, c) == [] ==> c <= FARCASTER_EPOCH)
  {
    var c := Cursor(start, s.sent);
    var found, s' := Later(added, c), Polled(s, Feed(feed + added));
    PollAnswer(s, feed, added, start);
    LaterMembers(added, c);
    assert Later(feed + added, c) == found by {
      assert (s.sent + Later(feed + added, c))[|s.sent|..] == (s.sent + found)[|s.sent|..];
    }
    if found == [] {
      assert s'.lastCast == c && s'.sent == s.sent;
      RelativeIsFixedIff(c);
    } else {
      LatestConcat(s.sent, found);
      LatestSomething(found, c);
    }
  }

  /** What a successful poll needs: every mention added since the last one is later than the cursor,
      and if none was added, the cursor is within the epoch offset. */
  ghost predicate IsOrderly(added: seq<FeedEntry>, start: nat, c: nat) {
    && (forall m | m in Later(added, start) :: m.timestamp > c)
    && (Later(added, c) == [] ==> c <= FARCASTER_EPOCH)
  }

  /** One successful poll misses nothing, repeats nothing and leaves a right cursor exactly then. */
  lemma PollCatchesUpIff(s: BotState, feed: seq<FeedEntry>, added: seq<FeedEntry>, start: nat)
    requires CaughtUp(s, feed, start)
    ensures CaughtUp(Polled(s, Feed(feed + added)), feed + added, start)
            <==> IsOrderly(added, start, Cursor(start, s.sent))
  {
    PollAnswer(s, feed, added, start);
    PollCursorIff(s, feed, added, start);
    LaterConcat(feed, added, start);
    LaterSameIff(added, start, Cursor(start, s.sent));
    var found, wanted := Later(added, Cursor(start, s.sent)), Later(added, start);
    assert (s.sent + found)[|s.sent|..] == found && (s.sent + wanted)[|s.sent|..] == wanted;
  }

  /** After an empty poll with a cursor past the offset, the next successful poll sends nothing twice
      exactly when the feed has no mention in the last offset before the cursor. */
  lemma LateEmptyPollRepeatsIff(s: BotState, feed: seq<FeedEntry>, next: seq<FeedEntry>)
    requires var c := Relative(s.lastCast); c > FARCASTER_EPOCH && Later(feed, c) == []
    ensures var c, empty := Relative(s.lastCast), Polled(s, Feed(feed));
            Polled(empty, Feed(next)).sent == s.sent + Later(next, c)
            <==> forall m | m in next && m.isMention :: !(c - FARCASTER_EPOCH < m.timestamp <= c)
  {
    var c := Relative(s.lastCast);
    var t := c - FARCASTER_EPOCH;
    var empty := Polled(s, Feed(feed));
    assert empty == s.(lastCast := c) && Relative(c) == t;
    LaterMembers(next, t);
    LaterSameIff(next, t, c);
    assert Polled(empty, Feed(next)).sent == s.sent + Later(next, t);
    assert (s.sent + Later(next, t))[|s.sent|..] == Later(next, t)
        && (s.sent + Later(next, c))[|s.sent|..] == Later(next, c);
  }

  /** The feed as the last successful poll saw it. */
  function LastFeed(polls: seq<Poll>): seq<FeedEntry> {
    if polls == [] then []
    else if polls[|polls| - 1].Feed? then polls[|polls| - 1].entries
    else LastFeed(polls[..|polls| - 1])
  }

  /** The feed only ever grows from one successful poll to the next. */
  ghost predicate FeedGrows(polls: seq<Poll>) {
    forall i | 0 <= i < |polls| && polls[i].Feed? :: LastFeed(polls[..i]) <= polls[i].entries
  }

  ghost predicate GrowsOrderly(feed: seq<FeedEntry>, next: seq<FeedEntry>, start: nat)
    requires feed <= next
  {
    IsOrderly(next[|feed|..], start, Cursor(start, Later(feed, start)))
  }

  ghost predicate FeedIsOrderly(polls: seq<Poll>, start: nat)
    requires FeedGrows(polls)
  {
    forall i | 0 <= i < |polls| && polls[i].Feed? :: GrowsOrderly(LastFeed(polls[..i]), polls[i].entries, start)
  }

  ghost predicate CaughtUpAfter(now: nat, polls: seq<Poll>, n: nat)
    requires n <= |polls|
  {
    CaughtUp(PolledAll(BotState(now, []), polls[..n]), LastFeed(polls[..n]), Relative(now))
  }

  lemma OnePollMore(now: nat, polls: seq<Poll>, n: nat)
    requires FeedGrows(polls) && n < |polls| && CaughtUpAfter(now, polls, n)
    ensures CaughtUpAfter(now, polls, n + 1)
            <==> (polls[n].Feed? ==> GrowsOrderly(LastFeed(polls[..n]), polls[n].entries, Relative(now)))
  {
    var front, start := polls[..n], Relative(now);
    assert polls[..n + 1] == front + [polls[n]] && polls[..n + 1][..n] == front;
    if polls[n].Feed? {
      var feed, next := LastFeed(front), polls[n].entries;
      assert feed <= next && next == feed + next[|feed|..];
      PollCatchesUpIff(PolledAll(BotState(now, []), front), feed, next[|feed|..], start);
    }
  }

  /** Over any number of polls of a growing feed, failed and empty ones included, the bot has at every
      moment sent every mention later than its start exactly once, in feed order, and keeps a right
      cursor, exactly when every successful poll finds the feed orderly. */
  lemma EveryMentionOnceIff(now: nat, polls: seq<Poll>)
    requires FeedGrows(polls)
    ensures (forall n | 0 <= n <= |polls| :: CaughtUpAfter(now, polls, n)) <==> FeedIsOrderly(polls, Relative(now))
  {
    if forall n | 0 <= n <= |polls| :: CaughtUpAfter(now, polls, n) {
      forall i | 0 <= i < |polls| && polls[i].Feed?
        ensures GrowsOrderly(LastFeed(polls[..i]), polls[i].entries, Relative(now))
      {
        assert CaughtUpAfter(now, polls, i) && CaughtUpAfter(now, polls, i + 1);
        OnePollMore(now, polls, i);
      }
    }
    if FeedIsOrderly(polls, Relative(now)) {
      forall n | 0 <= n <= |polls| ensures CaughtUpAfter(now, polls, n) {
        OrderlyPolls(now, polls, n);
      }
    }
  }

  lemma {:induction false} OrderlyPolls(now: nat, polls: seq<Poll>, n: nat)
    requires FeedGrows(polls) && FeedIsOrderly(polls, Relative(now)) && n <= |polls|
    ensures CaughtUpAfter(now, polls, n)
  {
    if n > 0 {
      OrderlyPolls(now, polls, n - 1);
      OnePollMore(now, polls, n - 1);
    }
  }

  // -------------------------------------------------- delivery, with any cursor

  /** The time from which the next successful poll asks, told from the feeds alone: an empty poll with
      a time past the offset sets it back by the offset. */
  function AskedFrom(start: nat, polls: seq<Poll>): nat {
    if polls == [] then start
    else
      var t := AskedFrom(start, polls[..|polls| - 1]);
      match polls[|polls| - 1]
      case Unreachable => t
      case Feed(entries) => if Later(entries, t) == [] then Relative(t) else Latest(Later(entries, t))
  }

  lemma {:induction false} CursorIsAskedFrom(now: nat, polls: seq<Poll>)
    ensures Relative(PolledAll(BotState(now, []), polls).lastCast) == AskedFrom(Relative(now), polls)
  {
    if polls != [] {
      var front, last := polls[..|polls| - 1], polls[|polls| - 1];
      CursorIsAskedFrom(now, front);
      if last.Feed? {
        var t := AskedFrom(Relative(now), front);
        LaterMembers(last.entries, t);
        if Later(last.entries, t) != [] {
          LatestSomething(Later(last.entries, t), t);
        }
      }
    }
  }

  /** Asking from `t` finds exactly the new mentions: no old one is later, and a new one is later than
      `t` just when it is later than the start. */
  ghost predicate FindsTheNew(feed: seq<FeedEntry>, added: seq<FeedEntry>, start: nat, t: nat) {
    && (forall m | m in feed && m.isMention :: m.timestamp <= t)
    && (forall m | m in added && m.isMention :: m.timestamp > t <==> m.timestamp > start)
  }

  lemma {:induction false} SameLaterIff(f: seq<FeedEntry>, t: nat, u: nat)
    ensures Later(f, t) == Later(f, u) <==> forall m | m in f && m.isMention :: m.timestamp > t <==> m.timestamp > u
  {
    var low, high := if t <= u then t else u, if t <= u then u else t;
    LaterSameIff(f, low, high);
    LaterMembers(f, low);
  }

  lemma NothingLaterIff(f: seq<FeedEntry>, t: nat)
    ensures Later(f, t) == [] <==> forall m | m in f && m.isMention :: m.timestamp <= t
  {
    LaterMembers(f, t);
    if forall m | m in f && m.isMention :: m.timestamp <= t {
      NothingLater(f, t);
    } else {
      var m :| m in f && m.isMention && m.timestamp > t;
      assert m in Later(f, t);
    }
  }

  /** Old mentions found again are never made up for by new ones that are missed. */
  lemma NoExchange(feed: seq<FeedEntry>, added: seq<FeedEntry>, start: nat, t: nat)
    requires Later(feed, t) + Later(added, t) == Later(added, start)
    ensures Later(feed, t) == []
  {
    var known, found, wanted := Later(feed, t), Later(added, t), Later(added, start);
    if start < t {
      LaterMembers(feed, t);
      LaterMembers(added, t);
      forall m | m in wanted ensures m.timestamp > t {
        assert m in known + found;
      }
      LaterSameIff(added, start, t);
    } else {
      LaterSameIff(added, t, start);
    }
    assert |wanted| == |known| + |found|;
  }

  lemma FindsTheNewIff(feed: seq<FeedEntry>, added: seq<FeedEntry>, start: nat, t: nat)
    ensures Later(feed + added, t) == Later(added, start) <==> FindsTheNew(feed, added, start, t)
  {
    LaterConcat(feed, added, t);
    NothingLaterIff(feed, t);
    SameLaterIff(added, t, start);
    assert [] + Later(added, t) == Later(added, t);
    if Later(feed + added, t) == Later(added, start) {
      NoExchange(feed, added, start, t);
    }
  }

  ghost predicate HasDelivered(now: nat, polls: seq<Poll>, n: nat)
    requires n <= |polls|
  {
    PolledAll(BotState(now, []), polls[..n]).sent == Later(LastFeed(polls[..n]), Relative(now))
  }

  ghost predicate PollFindsTheNew(polls: seq<Poll>, start: nat, i: nat)
    requires FeedGrows(polls) && i < |polls|
  {
    polls[i].Feed? ==>
      FindsTheNew(LastFeed(polls[..i]), polls[i].entries[|LastFeed(polls[..i])|..], start, AskedFrom(start, polls[..i]))
  }

  lemma OneDeliveryMore(now: nat, polls: seq<Poll>, n: nat)
    requires FeedGrows(polls) && n < |polls| && HasDelivered(now, polls, n)
    ensures HasDelivered(now, polls, n + 1) <==> PollFindsTheNew(polls, Relative(now), n)
  {
    var front, start := polls[..n], Relative(now);
    assert polls[..n + 1] == front + [polls[n]] && polls[..n + 1][..n] == front;
    if polls[n].Feed? {
      var feed, next, t := LastFeed(front), polls[n].entries, AskedFrom(start, front);
      var added := next[|feed|..];
      assert feed <= next && next == feed + added;
      CursorIsAskedFrom(now, front);
      FindsTheNewIff(feed, added, start, t);
      LaterConcat(feed, added, start);
      SentNext(PolledAll(BotState(now, []), front), next);
      SamePrefix(Later(feed, start), Later(next, t), Later(added, start));
    }
  }

  lemma SentNext(s: BotState, next: seq<FeedEntry>)
    ensures Polled(s, Feed(next)).sent == s.sent + Later(next, Relative(s.lastCast))
  {
    assert s.sent + [] == s.sent;
  }

  lemma SamePrefix<T>(a: seq<T>, b: seq<T>, c: seq<T>)
    ensures a + b == a + c <==> b == c
  {
    assert (a + b)[|a|..] == b && (a + c)[|a|..] == c;
  }

  /** Over any polls of a growing feed, the bot has at every moment sent every mention later than its
      start exactly once, in feed order, exactly when every successful poll asks from a time that finds
      the new mentions, whether or not the cursor is right. */
  lemma DeliversThroughoutIff(now: nat, polls: seq<Poll>)
    requires FeedGrows(polls)
    ensures (forall n | 0 <= n <= |polls| :: HasDelivered(now, polls, n))
            <==> forall i | 0 <= i < |polls| :: PollFindsTheNew(polls, Relative(now), i)
  {
    if forall n | 0 <= n <= |polls| :: HasDelivered(now, polls, n) {
      forall i | 0 <= i < |polls| ensures PollFindsTheNew(polls, Relative(now), i) {
        assert HasDelivered(now, polls, i) && HasDelivered(now, polls, i + 1);
        OneDeliveryMore(now, polls, i);
      }
    }
    if forall i | 0 <= i < |polls| :: PollFindsTheNew(polls, Relative(now), i) {
      forall n | 0 <= n <= |polls| ensures HasDelivered(now, polls, n) {
        DeliversUpTo(now, polls, n);
      }
    }
  }

  lemma {:induction false} DeliversUpTo(now: nat, polls: seq<Poll>, n: nat)
    requires FeedGrows(polls) && n <= |polls|
    requires forall i | 0 <= i < |polls| :: PollFindsTheNew(polls, Relative(now), i)
    ensures HasDelivered(now, polls, n)
  {
    if n > 0 {
      DeliversUpTo(now, polls, n - 1);
      assert PollFindsTheNew(polls, Relative(now), n - 1);
      OneDeliveryMore(now, polls, n - 1);
    }
  }

  /** Until relative times pass the epoch offset, it is enough that new mentions are later than the
      ones returned before. */
  lemma InTimeIsOrderly(feed: seq<FeedEntry>, added: seq<FeedEntry>, start: nat)
    requires start <= FARCASTER_EPOCH && forall m | m in feed :: m.timestamp <= FARCASTER_EPOCH
    requires forall m, n | m in Later(added, start) && n in Later(feed, start) :: m.timestamp > n.timestamp
    ensures IsOrderly(added, start, Cursor(start, Later(feed, start)))
  {
    LaterMembers(feed, start);
    LaterMembers(added, start);
    LatestIsMaximum(Later(feed, start));
  }

  lemma PolledAllSnoc(s: BotState, polls: seq<Poll>, poll: Poll)
    ensures PolledAll(s, polls + [poll]) == Polled(PolledAll(s, polls), poll)
  {
    assert (polls + [poll])[..|polls|] == polls;
  }

  lemma SingleMention(m: FeedEntry, t: nat)
    requires m.isMention
    ensures Later([m], t) == if m.timestamp > t then [m] else []
    ensures Latest([m]) == m.timestamp
  {
    assert [m][..0] == [];
  }

  /** Times past the bound do break it: an empty poll leaves a relative time in the cursor, the next
      poll takes it for an absolute one, and the mention is sent again. */
  lemma LateTimesRepeat(hash: string)
    ensures var m := FeedEntry(hash, FARCASTER_EPOCH + 5, true);
            var now, poll := 2 * FARCASTER_EPOCH + 1, Feed([m]);
            PolledAll(BotState(now, []), [] + [poll] + [poll] + [poll]).sent == [] + [m] + [m]
  {
    var m, s := FeedEntry(hash, FARCASTER_EPOCH + 5, true), BotState(2 * FARCASTER_EPOCH + 1, []);
    var poll := Feed([m]);
    PolledAllSnoc(s, [], poll);
    PolledAllSnoc(s, [] + [poll], poll);
    PolledAllSnoc(s, [] + [poll] + [poll], poll);
    SingleMention(m, FARCASTER_EPOCH + 1);
    SingleMention(m, FARCASTER_EPOCH + 5);
    SingleMention(m, 5);
  }
}
