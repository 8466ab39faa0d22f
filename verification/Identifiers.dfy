/** Textual identifiers of communities and users, and the migration that introduced them
    (communityhub/hub.go, communityhub/helpers.go, mongo/migrations/1_multichain-community-id.go). */
module Identifiers {
  import opened Prelude
  import opened Decimal

  // ----------------------------------------------------------- prefix and content

  function EncodePrefix(prefix: string, content: string): string {
    prefix + ":" + content
  }

  /** strings.Split by a colon. */
  function SplitColon(s: string): (parts: seq<string>)
    ensures parts != []
  {
    if s == "" then [""]
    else
      var rest := SplitColon(s[1..]);
      if s[0] == ':' then [""] + rest else [[s[0]] + rest[0]] + rest[1..]
  }

  function DecodePrefix(prefixed: string): Option<(string, string)> {
    var parts := SplitColon(prefixed);
    if prefixed == "" || |parts| != 2 then None else Some((parts[0], parts[1]))
  }

  function Colons(s: string): nat {
    if s == "" then 0 else (if s[0] == ':' then 1 else 0) + Colons(s[1..])
  }

  lemma {:induction false} SplitCounts(s: string)
    ensures |SplitColon(s)| == Colons(s) + 1
    ensures Colons(s) == 0 <==> ':' !in s
    ensures ':' !in s ==> SplitColon(s) == [s]
  {
    if s != "" {
      SplitCounts(s[1..]);
      assert s == [s[0]] + s[1..];
    }
  }

  lemma {:induction false} SplitJoined(a: string, b: string)
    requires ':' !in a
    ensures SplitColon(a + ":" + b) == [a] + SplitColon(b)
  {
    if a == "" {
      assert (a + ":" + b)[1..] == b;
    } else {
      assert (a + ":" + b)[1..] == a[1..] + ":" + b;
      SplitJoined(a[1..], b);
      assert a == [a[0]] + a[1..];
    }
  }

  lemma {:induction false} ColonsConcat(a: string, b: string)
    ensures Colons(a + b) == Colons(a) + Colons(b)
  {
    if a == "" {
      assert a + b == b;
    } else {
      assert (a + b)[1..] == a[1..] + b;
      ColonsConcat(a[1..], b);
    }
  }

  /** A prefixed content decodes to its two parts exactly when neither holds a colon. */
  lemma DecodeUndoesEncodeIff(prefix: string, content: string)
    ensures DecodePrefix(EncodePrefix(prefix, content)) == Some((prefix, content))
            <==> ':' !in prefix && ':' !in content
  {
    var s := prefix + ":" + content;
    if ':' !in prefix && ':' !in content {
      SplitJoined(prefix, content);
      SplitCounts(content);
    } else {
      SplitCounts(prefix);
      SplitCounts(content);
      SplitCounts(s);
      ColonsConcat(prefix + ":", content);
      ColonsConcat(prefix, ":");
    }
  }

  lemma {:induction false} TwoParts(s: string)
    requires |SplitColon(s)| == 2
    ensures s == SplitColon(s)[0] + ":" + SplitColon(s)[1] && ':' !in SplitColon(s)[0] && ':' !in SplitColon(s)[1]
  {
    var rest := SplitColon(s[1..]);
    assert s == [s[0]] + s[1..];
    SplitCounts(s[1..]);
    if s[0] == ':' {
      assert SplitColon(s) == ["", s[1..]];
      assert "" + ":" + s[1..] == [':'] + s[1..];
    } else {
      TwoParts(s[1..]);
      assert SplitColon(s) == [[s[0]] + rest[0], rest[1]];
      assert [s[0]] + rest[0] + ":" + rest[1] == [s[0]] + (rest[0] + ":" + rest[1]);
    }
  }

  /** Exactly the texts with one colon decode, to what is before and behind it. */
  lemma DecodePrefixIff(s: string, prefix: string, content: string)
    ensures DecodePrefix(s) == Some((prefix, content))
            <==> s == prefix + ":" + content && ':' !in prefix && ':' !in content
  {
    if DecodePrefix(s) == Some((prefix, content)) {
      TwoParts(s);
    }
    if s == prefix + ":" + content {
      DecodeUndoesEncodeIff(prefix, content);
    }
  }

  // ------------------------------------------------------------- community IDs

  function CommunityIDByChainAlias(aliases: map<string, nat>, id: nat, alias: string): Option<string> {
    if alias in aliases then Some(EncodePrefix(alias, Print(id))) else None
  }

  function AliasAndContractID(aliases: map<string, nat>, communityID: string): Option<(string, nat)> {
    match DecodePrefix(communityID)
    case None => None
    case Some((alias, strID)) =>
      if alias !in aliases then None
      else
        match ParseUint64(strID)
        case None => None
        case Some(id) => Some((alias, id))
  }

  /** An encoded ID decodes to the known alias and the number it was made from exactly when the alias
      holds no colon. */
  lemma CommunityIDRoundTripIff(aliases: map<string, nat>, alias: string, id: nat)
    requires id < TWO_TO_THE_64 && alias in aliases
    ensures AliasAndContractID(aliases, CommunityIDByChainAlias(aliases, id, alias).value) == Some((alias, id))
            <==> ':' !in alias
  {
    DecodeUndoesEncodeIff(alias, Print(id));
    ParseUndoesPrint(id);
    PrintIsDigits(id);
    assert ':' !in Print(id);
    if ':' in alias {
      var s := EncodePrefix(alias, Print(id));
      SplitCounts(alias);
      SplitCounts(s);
      ColonsConcat(alias + ":", Print(id));
      ColonsConcat(alias, ":");
    }
  }

  /** Exactly the texts of a known alias, a colon and a 64-bit number are community IDs; an unknown
      alias has none. */
  lemma AliasAndContractIDIff(aliases: map<string, nat>, s: string, alias: string, id: nat)
    ensures AliasAndContractID(aliases, s) == Some((alias, id))
            <==> alias in aliases && ':' !in alias
                 && exists digits :: s == alias + ":" + digits && ParseUint64(digits) == Some(id)
    ensures CommunityIDByChainAlias(aliases, id, alias)
            == if alias in aliases then Some(alias + ":" + Print(id)) else None
  {
    if AliasAndContractID(aliases, s) == Some((alias, id)) {
      var (a, digits) := DecodePrefix(s).value;
      DecodePrefixIff(s, a, digits);
      assert s == alias + ":" + digits;
    }
    if alias in aliases && ':' !in alias {
      forall digits | s == alias + ":" + digits && ParseUint64(digits) == Some(id)
        ensures AliasAndContractID(aliases, s) == Some((alias, id))
      {
        assert ':' !in digits;
        DecodePrefixIff(s, alias, digits);
      }
    }
  }

  lemma PrintIsInjective(m: nat, n: nat)
    requires Print(m) == Print(n)
    ensures m == n
  {
    PrintIsDigits(m);
    PrintIsDigits(n);
  }

  lemma ColonFurtherBack(a: string, d: string, a': string, d': string)
    requires a + ":" + d == a' + ":" + d' && |a'| < |a|
    ensures ':' in d'
  {
    assert (a + ":" + d)[|a|] == ':' && (a' + ":" + d')[|a|] == d'[|a| - |a'| - 1];
  }

  /** The part behind the last colon is the only one without colons. */
  lemma LastColonSplits(a: string, d: string, a': string, d': string)
    requires a + ":" + d == a' + ":" + d' && ':' !in d && ':' !in d'
    ensures a == a' && d == d'
  {
    if |a'| < |a| {
      ColonFurtherBack(a, d, a', d');
    } else if |a| < |a'| {
      ColonFurtherBack(a', d', a, d);
    } else {
      SameSplit(a, ":", d, a', d');
    }
  }

  lemma SameSplit(a: string, mid: string, d: string, a': string, d': string)
    requires a + mid + d == a' + mid + d' && |a| == |a'|
    ensures a == a' && d == d'
  {
    var k := |a + mid|;
    assert a == (a + mid + d)[..|a|] && a' == (a' + mid + d')[..|a|];
    assert d == (a + mid + d)[k..] && d' == (a' + mid + d')[k..];
  }

  /** Different pairs of a known alias and a number have different IDs, whatever the aliases hold. */
  lemma CommunityIDsAreDistinct(aliases: map<string, nat>, alias: string, id: nat, alias': string, id': nat)
    requires alias in aliases && alias' in aliases
    requires CommunityIDByChainAlias(aliases, id, alias) == CommunityIDByChainAlias(aliases, id', alias')
    ensures alias == alias' && id == id'
  {
    PrintIsDigits(id);
    PrintIsDigits(id');
    assert ':' !in Print(id) && ':' !in Print(id');
    LastColonSplits(alias, Print(id), alias', Print(id'));
    PrintIsInjective(id, id');
  }

  // ------------------------------------------------------------ user references

  const USER_PREFIX := "fid:"

  function EncodeUserChannelFID(fid: nat): string {
    USER_PREFIX + Print(fid)
  }

  function DecodeUserChannelFID(channelFID: string): Option<nat> {
    if USER_PREFIX <= channelFID then ParseUint64(channelFID[|USER_PREFIX|..]) else None
  }

  /** Exactly the prefix "fid:" with a 64-bit number is a user reference. */
  lemma UserReferenceIff(s: string, fid: nat)
    ensures DecodeUserChannelFID(s) == Some(fid)
            <==> exists digits :: s == "fid:" + digits && ParseUint64(digits) == Some(fid)
  {
    assert USER_PREFIX <= s ==> s == USER_PREFIX + s[|USER_PREFIX|..];
    assert forall digits | s == USER_PREFIX + digits :: USER_PREFIX <= s && s[|USER_PREFIX|..] == digits;
  }

  /** The texts that are stored and sent. */
  lemma IdentifierTexts()
    ensures EncodeUserChannelFID(7) == "fid:7" && EncodePrefix("degen", "12") == "degen:12"
    ensures UpID(Integer(12)) == Words("degen:12")
  {
    assert Print(12) == Print(1) + "2";
  }

  lemma UserReferenceRoundTripIff(fid: nat)
    ensures DecodeUserChannelFID(EncodeUserChannelFID(fid)) == Some(fid) <==> fid < TWO_TO_THE_64
  {
    assert EncodeUserChannelFID(fid)[|USER_PREFIX|..] == Print(fid);
    ParseUndoesPrint(fid);
  }

  // ---------------------------------------------------------------- the migration

  /** The community ID of a stored document: a 64-bit integer before the migration, a text after it. */
  datatype StoredID = Absent | Integer(i: int) | Words(s: string)

  /** An election outside communities, or the community entry of an election. */
  datatype ElectionEntry = NoCommunity | InCommunity(id: StoredID, name: string)

  const DEGEN := "degen:"

  function UpID(id: StoredID): StoredID {
    if id.Integer? then Words(DEGEN + PrintBig(id.i)) else id
  }

  /** None stands for the run-time failure of logging the type of an ID that is not there. */
  function UpElection(e: ElectionEntry): Option<ElectionEntry> {
    if e.NoCommunity? then Some(e)
    else if e.id.Absent? then None
    else Some(e.(id := UpID(e.id)))
  }

  /** None stands for the error that ends the migration: digits that do not fit 64 bits. */
  function DownID(id: StoredID): Option<StoredID> {
    if !id.Words? then Some(id)
    else
      var digits := if DEGEN <= id.s then id.s[|DEGEN|..] else "";
      if digits == "" || !AllDigits(digits) then Some(Absent)
      else
        match ParseUint64(digits)
        case Some(n) => Some(Integer(n))
        case None => None
  }

  /** An election whose text ID is not one of the migration's loses its whole community entry. */
  function DownElection(e: ElectionEntry): Option<ElectionEntry> {
    if e.NoCommunity? || !e.id.Words? then Some(e)
    else
      match DownID(e.id)
      case None => None
      case Some(Absent) => Some(NoCommunity)
      case Some(id) => Some(e.(id := id))
  }

  /** Which texts the migration reads back as a number, and which ones end it. */
  lemma DownReads(s: string, n: nat)
    ensures DownID(Words(s)) == Some(Integer(n))
            <==> exists digits :: s == DEGEN + digits && ParseUint64(digits) == Some(n)
    ensures DownID(Words(s)).None?
            <==> exists digits :: s == DEGEN + digits && digits != "" && AllDigits(digits) && ParseUint64(digits).None?
  {
    assert DEGEN <= s ==> s == DEGEN + s[|DEGEN|..];
    assert forall digits | s == DEGEN + digits :: DEGEN <= s && s[|DEGEN|..] == digits;
  }

  /** Up changes numbers only, to degen identifiers; texts and elections outside communities stay. */
  lemma UpChangesNumbersOnly(id: StoredID, name: string)
    ensures id.Integer? ==> UpID(id) == Words("degen:" + PrintBig(id.i))
    ensures !id.Integer? ==> UpID(id) == id
    ensures UpElection(NoCommunity) == Some(NoCommunity)
    ensures UpElection(InCommunity(id, name)) == if id.Absent? then None else Some(InCommunity(UpID(id), name))
  {}

  /** A text is one of the migration's: the degen prefix and decimal digits. */
  ghost predicate IsDegen(s: string) {
    exists digits :: s == "degen:" + digits && digits != "" && AllDigits(digits)
  }

  /** Down removes other texts: from an avatar the identifier, from an election the whole community
      entry; what is not a text stays, and a degen identifier only changes to its number. */
  lemma DownRemovesOtherTexts(s: string, name: string)
    ensures DownID(Words(s)) == Some(Absent) <==> !IsDegen(s)
    ensures DownElection(InCommunity(Words(s), name)) == Some(NoCommunity) <==> !IsDegen(s)
    ensures IsDegen(s) ==>
              DownElection(InCommunity(Words(s), name))
              == if DownID(Words(s)).Some? then Some(InCommunity(DownID(Words(s)).value, name)) else None
    ensures forall id: StoredID | !id.Words? :: DownID(id) == Some(id)
    ensures forall id: StoredID | !id.Words? :: DownElection(InCommunity(id, name)) == Some(InCommunity(id, name))
    ensures DownElection(NoCommunity) == Some(NoCommunity)
  {
    assert DEGEN <= s ==> s == DEGEN + s[|DEGEN|..];
    assert forall digits | s == DEGEN + digits :: DEGEN <= s && s[|DEGEN|..] == digits;
  }

  /** Documents rewritten one after the other, up to the first one that ends the migration. */
  function Rewritten<T>(docs: seq<T>, f: T -> Option<T>): (r: (seq<T>, bool))
    ensures |r.0| == |docs|
  {
    if docs == [] then ([], true)
    else if f(docs[0]).None? then (docs, false)
    else
      var (rest, ok) := Rewritten(docs[1..], f);
      ([f(docs[0]).value] + rest, ok)
  }

  /** The first documents are rewritten to `done`; what is left is to be rewritten from number `i` on. */
  ghost predicate IsRewriting<T(!new)>(before: seq<T>, f: T -> Option<T>, i: nat, done: seq<T>) {
    && i <= |before|
    && Rewritten(before, f).0 == done + Rewritten(before[i..], f).0
    && Rewritten(before, f).1 == Rewritten(before[i..], f).1
  }

  lemma RewriteOne<T(!new)>(before: seq<T>, f: T -> Option<T>, i: nat, done: seq<T>)
    requires IsRewriting(before, f, i, done) && i < |before| && f(before[i]).Some?
    ensures IsRewriting(before, f, i + 1, done + [f(before[i]).value])
  {
    assert before[i..][1..] == before[i + 1..];
    ConcatAssociates(done, [f(before[i]).value], Rewritten(before[i + 1..], f).0);
  }

  lemma RewriteStops<T(!new)>(before: seq<T>, f: T -> Option<T>, i: nat, done: seq<T>)
    requires IsRewriting(before, f, i, done) && (i == |before| || f(before[i]).None?)
    ensures Rewritten(before, f) == (done + before[i..], i == |before|)
  {}

  /** Every document is rewritten up to the first one that cannot be, and the others stay. */
  lemma {:induction false} RewrittenEntries<T>(docs: seq<T>, f: T -> Option<T>, i: nat)
    requires i < |docs|
    ensures (forall j | 0 <= j <= i :: f(docs[j]).Some?) ==> Rewritten(docs, f).0[i] == f(docs[i]).value
    ensures (exists j :: 0 <= j <= i && f(docs[j]).None?) ==> Rewritten(docs, f).0[i] == docs[i]
    ensures Rewritten(docs, f).1 ==> f(docs[i]).Some?
  {
    if f(docs[0]).Some? && i > 0 {
      RewrittenEntries(docs[1..], f, i - 1);
      assert forall j | 1 <= j < |docs| :: docs[j] == docs[1..][j - 1];
      assert (forall j | 0 <= j <= i :: f(docs[j]).Some?) <==> forall j | 0 <= j <= i - 1 :: f(docs[1..][j]).Some?;
    }
  }

  lemma {:induction false} RewrittenAllIff<T>(docs: seq<T>, f: T -> Option<T>)
    ensures Rewritten(docs, f).1 <==> forall i | 0 <= i < |docs| :: f(docs[i]).Some?
  {
    if docs != [] {
      RewrittenAllIff(docs[1..], f);
      assert forall j | 1 <= j < |docs| :: docs[j] == docs[1..][j - 1];
      assert (forall i | 0 <= i < |docs| :: f(docs[i]).Some?)
             <==> (f(docs[0]).Some? && forall i | 0 <= i < |docs[1..]| :: f(docs[1..][i]).Some?);
    }
  }

  /** The cursor loop that both collections go through in both directions. */
  method Rewrite<T(!new)>(docs: array<T>, f: T -> Option<T>) returns (ok: bool)
    modifies docs
    ensures (docs[..], ok) == Rewritten(old(docs[..]), f)
  {
    ghost var before := docs[..];
    assert before[0..] == before && docs[..0] + Rewritten(before, f).0 == Rewritten(before, f).0;
    for i := 0 to docs.Length
      invariant forall j | i <= j < docs.Length :: docs[j] == before[j]
      invariant IsRewriting(before, f, i, docs[..i])
    {
      ghost var done := docs[..i];
      var update := f(docs[i]);
      if update.None? {
        RewriteStops(before, f, i, done);
        Halves(docs, before, i);
        return false;
      }
      RewriteOne(before, f, i, done);
      docs[i] := update.value;
      assert docs[..i + 1] == done + [update.value];
    }
    RewriteStops(before, f, docs.Length, docs[..docs.Length]);
    Halves(docs, before, docs.Length);
    ok := true;
  }

  lemma Halves<T(!new)>(docs: array<T>, before: seq<T>, i: nat)
    requires i <= docs.Length == |before| && forall j | i <= j < docs.Length :: docs[j] == before[j]
    ensures docs[..] == docs[..i] + before[i..]
  {}

  /** The stored elections and avatars. */
  datatype Documents = Documents(elections: seq<ElectionEntry>, avatars: seq<StoredID>)

  /** Elections first; a failure there leaves the avatars alone. */
  function Up(d: Documents): (Documents, bool) {
    var (elections, ok) := Rewritten(d.elections, UpElection);
    if !ok then (Documents(elections, d.avatars), false)
    else
      var (avatars, ok') := Rewritten(d.avatars, id => Some(UpID(id)));
      (Documents(elections, avatars), ok')
  }

  function Down(d: Documents): (Documents, bool) {
    var (elections, ok) := Rewritten(d.elections, DownElection);
    if !ok then (Documents(elections, d.avatars), false)
    else
      var (avatars, ok') := Rewritten(d.avatars, DownID);
      (Documents(elections, avatars), ok')
  }

  /** A failure in the elections leaves the avatars alone, in both directions; without one, the
      avatars follow, which up never fails at. */
  lemma ElectionsComeFirst(d: Documents)
    ensures Up(d).0.elections == Rewritten(d.elections, UpElection).0
    ensures Down(d).0.elections == Rewritten(d.elections, DownElection).0
    ensures (exists i :: 0 <= i < |d.elections| && UpElection(d.elections[i]).None?) ==>
              !Up(d).1 && Up(d).0.avatars == d.avatars
    ensures (exists i :: 0 <= i < |d.elections| && DownElection(d.elections[i]).None?) ==>
              !Down(d).1 && Down(d).0.avatars == d.avatars
    ensures (forall i | 0 <= i < |d.elections| :: UpElection(d.elections[i]).Some?) ==>
              Up(d).0.avatars == Rewritten(d.avatars, id => Some(UpID(id))).0
    ensures (forall i | 0 <= i < |d.elections| :: DownElection(d.elections[i]).Some?) ==>
              Down(d).0.avatars == Rewritten(d.avatars, DownID).0
  {
    RewrittenAllIff(d.elections, UpElection);
    RewrittenAllIff(d.elections, DownElection);
  }

  method UpNewCommunityID(elections: array<ElectionEntry>, avatars: array<StoredID>) returns (ok: bool)
    modifies elections, avatars
    ensures (Documents(elections[..], avatars[..]), ok) == Up(Documents(old(elections[..]), old(avatars[..])))
  {
    ok := Rewrite(elections, UpElection);
    if ok {
      ok := Rewrite(avatars, id => Some(UpID(id)));
    }
  }

  method DownNewCommunityID(elections: array<ElectionEntry>, avatars: array<StoredID>) returns (ok: bool)
    modifies elections, avatars
    ensures (Documents(elections[..], avatars[..]), ok) == Down(Documents(old(elections[..]), old(avatars[..])))
  {
    ok := Rewrite(elections, DownElection);
    if ok {
      ok := Rewrite(avatars, DownID);
    }
  }

  /** Going down undoes going up for one avatar exactly when its ID was not a negative number or a text. */
  lemma DownUndoesUpIff(id: StoredID)
    requires id.Integer? ==> id.i < TWO_TO_THE_64 / 2
    ensures DownID(UpID(id)) == Some(id) <==> id.Absent? || (id.Integer? && id.i >= 0)
  {
    if id.Integer? {
      assert (DEGEN + PrintBig(id.i))[|DEGEN|..] == PrintBig(id.i);
      if id.i >= 0 {
        PrintIsDigits(id.i);
        ParseUndoesPrint(id.i);
      } else {
        assert PrintBig(id.i)[0] == '-' && !AllDigits(PrintBig(id.i));
      }
    }
  }

  /** For one election: exactly when it had no community or one with a non-negative number. */
  lemma ElectionUndoneIff(e: ElectionEntry)
    requires e.InCommunity? && e.id.Integer? ==> e.id.i < TWO_TO_THE_64 / 2
    ensures UpElection(e).Some? && DownElection(UpElection(e).value) == Some(e)
            <==> e.NoCommunity? || (e.id.Integer? && e.id.i >= 0)
  {
    if e.InCommunity? {
      DownUndoesUpIff(e.id);
    }
  }

  /** Rewriting there and back restores all documents exactly when it restores each of them. */
  lemma {:induction false} RewrittenBackIff<T>(docs: seq<T>, up: T -> Option<T>, down: T -> Option<T>)
    ensures var (there, ok) := Rewritten(docs, up);
            ok && Rewritten(there, down) == (docs, true)
            <==> forall i | 0 <= i < |docs| :: up(docs[i]).Some? && down(up(docs[i]).value) == Some(docs[i])
  {
    if docs != [] && up(docs[0]).Some? {
      var (there, ok) := Rewritten(docs, up);
      RewrittenBackIff(docs[1..], up, down);
      assert there[0] == up(docs[0]).value && there[1..] == Rewritten(docs[1..], up).0;
      assert docs == [docs[0]] + docs[1..];
      assert forall i | 1 <= i < |docs| :: docs[i] == docs[1..][i - 1];
      assert (forall i | 0 <= i < |docs| :: up(docs[i]).Some? && down(up(docs[i]).value) == Some(docs[i]))
             <==> down(up(docs[0]).value) == Some(docs[0])
                  && forall i | 0 <= i < |docs[1..]| ::
                      up(docs[1..][i]).Some? && down(up(docs[1..][i]).value) == Some(docs[1..][i]);
    }
  }

  ghost predicate FitInt64(d: Documents) {
    && (forall e | e in d.elections && e.InCommunity? && e.id.Integer? :: e.id.i < TWO_TO_THE_64 / 2)
    && (forall id | id in d.avatars && id.Integer? :: id.i < TWO_TO_THE_64 / 2)
  }

  ghost predicate AreOld(d: Documents) {
    && (forall i | 0 <= i < |d.elections| ::
          d.elections[i].NoCommunity? || (d.elections[i].id.Integer? && d.elections[i].id.i >= 0))
    && (forall i | 0 <= i < |d.avatars| :: d.avatars[i].Absent? || (d.avatars[i].Integer? && d.avatars[i].i >= 0))
  }

  /** Over both collections: the migration up succeeds and the one down restores everything exactly
      when every election has no community or one with a non-negative number, and every avatar no ID or
      a non-negative number. */
  lemma MigrationUndoneIff(d: Documents)
    requires FitInt64(d)
    ensures Up(d).1 && Down(Up(d).0) == (d, true) <==> AreOld(d)
  {
    var upAvatar := (id: StoredID) => Some(UpID(id));
    RewrittenBackIff(d.elections, UpElection, DownElection);
    RewrittenBackIff(d.avatars, upAvatar, DownID);
    forall i | 0 <= i < |d.elections|
      ensures UpElection(d.elections[i]).Some? && DownElection(UpElection(d.elections[i]).value) == Some(d.elections[i])
              <==> d.elections[i].NoCommunity? || (d.elections[i].id.Integer? && d.elections[i].id.i >= 0)
    {
      assert d.elections[i] in d.elections;
      ElectionUndoneIff(d.elections[i]);
    }
    forall i | 0 <= i < |d.avatars|
      ensures DownID(UpID(d.avatars[i])) == Some(d.avatars[i])
              <==> d.avatars[i].Absent? || (d.avatars[i].Integer? && d.avatars[i].i >= 0)
    {
      assert d.avatars[i] in d.avatars;
      DownUndoesUpIff(d.avatars[i]);
    }
    UpAvatarsSucceed(d.avatars, upAvatar);
    assert Rewritten(d.avatars, id => Some(UpID(id))) == Rewritten(d.avatars, upAvatar);
  }

  lemma {:induction false} UpAvatarsSucceed(avatars: seq<StoredID>, f: StoredID -> Option<StoredID>)
    requires forall id :: f(id).Some?
    ensures Rewritten(avatars, f).1
  {
    if avatars != [] {
      UpAvatarsSucceed(avatars[1..], f);
    }
  }
}
