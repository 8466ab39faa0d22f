/** The three representations of a community and the conversions between them
    (communityhub/helpers.go, communityhub/types.go). */
module Communities {
  import opened Prelude
  import opened Decimal
  import opened PartialUpdate

  const CHANNEL := "channel"
  const ERC20 := "erc20"
  const NFT := "nft"
  const FOLLOWERS := "followers"

  datatype HubCommunity = HubCommunity(
    communityID: string, contractID: nat, chainID: nat, name: string, imageURL: string, groupChatURL: string,
    censusType: string, censusAddresses: seq<Token>, censusChannel: string, channels: Option<seq<string>>,
    admins: seq<nat>, notifications: Option<bool>, disabled: Option<bool>,
    createElectionPermission: nat, funds: Option<int>)

  datatype ContractCommunity = ContractCommunity(
    name: string, imageURI: string, groupChatURL: string, channels: Option<seq<string>>, notifications: bool,
    guardians: seq<nat>, censusKind: nat, censusChannel: string, censusTokens: seq<Token>,
    disabled: bool, createElectionPermission: nat, funds: Option<int>)

  /** A missing slice of addresses is None. */
  datatype DBCommunity = DBCommunity(
    id: string, name: string, channels: Option<seq<string>>, censusType: string,
    censusAddresses: Option<seq<Token>>, censusChannel: string, imageURL: string, groupChatURL: string,
    creator: nat, admins: Option<seq<nat>>, notifications: bool, disabled: bool, featured: bool)

  /** IndexOutOfRange is the run-time failure of reading the first of no admins. */
  datatype HubError =
    | NoChannelProvided | NoUserRefProvided | BadCensusAddresses | UnknownCensusType | IndexOutOfRange
    | InvalidCommunityData | CommunityIDMismatch | NoAdminCreator
    | DecodeCommunityID | ContractNotFound | CommunityNotFound | SettingCommunity | GettingCommunity | AddCommunity

  predicate IsChannelType(t: string) {
    t == CHANNEL || t == FOLLOWERS
  }

  predicate IsTokenType(t: string) {
    t == ERC20 || t == NFT
  }

  function ContractKind(t: string): nat {
    if t == CHANNEL then 1 else if t == FOLLOWERS then 2 else if t == ERC20 then 4 else if t == NFT then 5 else 0
  }

  function InternalType(kind: nat): string {
    if kind == 1 then CHANNEL
    else if kind == 2 then FOLLOWERS
    else if kind == 4 then ERC20
    else if kind == 5 then NFT
    else ""
  }

  /** The census types and their numbers in the contract; it has others, such as 0 and 3, that no
      community of the hub has. */
  lemma CensusKinds(t: string, kind: nat)
    ensures t in {"channel", "followers", "erc20", "nft"} <==> IsChannelType(t) || IsTokenType(t)
    ensures IsChannelType(t) <==> t in {"channel", "followers"}
    ensures ContractKind("channel") == 1 && InternalType(1) == "channel"
    ensures ContractKind("followers") == 2 && InternalType(2) == "followers"
    ensures ContractKind("erc20") == 4 && InternalType(4) == "erc20"
    ensures ContractKind("nft") == 5 && InternalType(5) == "nft"
    ensures InternalType(kind) == "" <==> kind !in {1, 2, 4, 5}
  {
    assert CHANNEL != ERC20 && CHANNEL != NFT && FOLLOWERS != ERC20 && FOLLOWERS != NFT;
    assert CHANNEL != FOLLOWERS && ERC20 != NFT;
  }

  /** The contract says the same of the community as the hub; an unset flag is false there. */
  ghost predicate IsContractOf(h: HubCommunity, cc: ContractCommunity) {
    && cc.name == h.name && cc.imageURI == h.imageURL && cc.groupChatURL == h.groupChatURL && cc.channels == h.channels
    && cc.guardians == h.admins && cc.censusChannel == h.censusChannel && cc.censusTokens == h.censusAddresses
    && cc.notifications == (h.notifications == Some(true)) && cc.disabled == (h.disabled == Some(true))
    && cc.createElectionPermission == h.createElectionPermission
    && (h.censusType == "channel" ==> cc.censusKind == 1) && (h.censusType == "followers" ==> cc.censusKind == 2)
    && (h.censusType == "erc20" ==> cc.censusKind == 4) && (h.censusType == "nft" ==> cc.censusKind == 5)
  }

  /** The record says the same of the community as the hub, with the census source of its type only. */
  ghost predicate IsRecordOf(h: HubCommunity, c: DBCommunity) {
    && c.id == h.communityID && c.name == h.name && c.imageURL == h.imageURL && c.groupChatURL == h.groupChatURL
    && c.channels == h.channels && c.admins == Some(h.admins) && c.censusType == h.censusType
    && (h.censusType in {"channel", "followers"} ==> c.censusChannel == h.censusChannel && c.censusAddresses == None)
    && (h.censusType in {"erc20", "nft"} ==> c.censusAddresses == Some(h.censusAddresses) && c.censusChannel == "")
    && c.notifications == (h.notifications == Some(true)) && c.disabled == (h.disabled == Some(true))
  }

  // --------------------------------------------------------------- conversions

  /** Big integers are cut to 64 bits on their way in. */
  method ContractToHub(contractID: nat, chainID: nat, communityID: string, cc: ContractCommunity)
      returns (r: Result<HubCommunity, HubError>)
    ensures r.Ok? <==> cc.censusKind in {1, 2, 4, 5}
    ensures r.Ok? ==>
              && r.value.communityID == communityID && r.value.contractID == contractID && r.value.chainID == chainID
              && r.value.censusChannel == (if cc.censusKind <= 2 then cc.censusChannel else "")
              && r.value.censusAddresses == (if cc.censusKind <= 2 then [] else cc.censusTokens)
              && |r.value.admins| == |cc.guardians|
              && (forall i | 0 <= i < |cc.guardians| :: r.value.admins[i] == cc.guardians[i] % TWO_TO_THE_64)
              && r.value.funds == cc.funds
              && IsContractOf(r.value, cc.(guardians := r.value.admins, censusChannel := r.value.censusChannel,
                                           censusTokens := r.value.censusAddresses))
    ensures r == if InternalType(cc.censusKind) == "" then Err(UnknownCensusType)
                 else Ok(FromContract(contractID, chainID, communityID, cc))
  {
    var admins := [];
    for i := 0 to |cc.guardians|
      invariant admins == CutTo64(cc.guardians[..i])
    {
      admins := admins + [cc.guardians[i] % TWO_TO_THE_64];
    }
    assert cc.guardians[..|cc.guardians|] == cc.guardians;
    var community := HubCommunity(
      communityID, contractID, chainID, cc.name, cc.imageURI, cc.groupChatURL, InternalType(cc.censusKind), [], "",
      cc.channels, admins, Some(cc.notifications), Some(cc.disabled), cc.createElectionPermission, cc.funds);
    if IsChannelType(community.censusType) {
      community := community.(censusChannel := cc.censusChannel);
    } else if IsTokenType(community.censusType) {
      var addresses := [];
      for i := 0 to |cc.censusTokens|
        invariant addresses == cc.censusTokens[..i]
      {
        addresses := addresses + [Token(cc.censusTokens[i].blockchain, cc.censusTokens[i].address)];
      }
      assert cc.censusTokens[..|cc.censusTokens|] == cc.censusTokens;
      community := community.(censusAddresses := addresses);
    } else {
      return Err(UnknownCensusType);
    }
    r := Ok(community);
  }

  function CutTo64(ns: seq<nat>): seq<nat> {
    seq(|ns|, i requires 0 <= i < |ns| => ns[i] % TWO_TO_THE_64)
  }

  function FromContract(contractID: nat, chainID: nat, communityID: string, cc: ContractCommunity): HubCommunity {
    var t := InternalType(cc.censusKind);
    HubCommunity(
      communityID, contractID, chainID, cc.name, cc.imageURI, cc.groupChatURL, t,
      if IsTokenType(t) then cc.censusTokens else [], if IsChannelType(t) then cc.censusChannel else "",
      cc.channels, CutTo64(cc.guardians), Some(cc.notifications), Some(cc.disabled),
      cc.createElectionPermission, cc.funds)
  }

  /** The census source that a census type needs is there. */
  predicate HasCensusSource(h: HubCommunity) {
    (IsChannelType(h.censusType) && h.censusChannel != "") || (IsTokenType(h.censusType) && h.censusAddresses != [])
  }

  lemma CensusSourceMeans(h: HubCommunity)
    ensures HasCensusSource(h)
            <==> (h.censusType in {"channel", "followers"} && h.censusChannel != "")
                 || (h.censusType in {"erc20", "nft"} && h.censusAddresses != [])
  {
    CensusKinds(h.censusType, 0);
  }

  function ToContract(h: HubCommunity): ContractCommunity {
    ContractCommunity(
      h.name, h.imageURL, h.groupChatURL, h.channels, h.notifications.GetOr(false), h.admins,
      ContractKind(h.censusType), h.censusChannel, h.censusAddresses,
      h.disabled.GetOr(false), h.createElectionPermission, h.funds)
  }

  method HubToContract(h: HubCommunity) returns (r: Result<ContractCommunity, HubError>)
    ensures r.Ok? <==> HasCensusSource(h)
    ensures r.Ok? ==> IsContractOf(h, r.value) && r.value.funds == h.funds
    ensures r.Ok? ==> r.value == ToContract(h)
    ensures r.Err? ==> r.error == if h.censusType == CHANNEL then NoChannelProvided
                                  else if h.censusType == FOLLOWERS then NoUserRefProvided
                                  else if IsTokenType(h.censusType) then BadCensusAddresses else UnknownCensusType
  {
    if h.censusType == CHANNEL {
      if h.censusChannel == "" { return Err(NoChannelProvided); }
    } else if IsTokenType(h.censusType) {
      if |h.censusAddresses| == 0 { return Err(BadCensusAddresses); }
    } else if h.censusType == FOLLOWERS {
      if h.censusChannel == "" { return Err(NoUserRefProvided); }
    } else {
      return Err(UnknownCensusType);
    }
    var tokens, guardians := [], [];
    for i := 0 to |h.censusAddresses|
      invariant tokens == h.censusAddresses[..i]
    {
      tokens := tokens + [Token(h.censusAddresses[i].blockchain, h.censusAddresses[i].address)];
    }
    for i := 0 to |h.admins|
      invariant guardians == h.admins[..i]
    {
      guardians := guardians + [h.admins[i]];
    }
    var cc := ContractCommunity(
      h.name, h.imageURL, h.groupChatURL, h.channels, false, guardians, ContractKind(h.censusType),
      h.censusChannel, tokens, false, h.createElectionPermission, h.funds);
    if h.notifications.Some? {
      cc := cc.(notifications := h.notifications.value);
    }
    if h.disabled.Some? {
      cc := cc.(disabled := h.disabled.value);
    }
    r := Ok(cc);
  }

  function ToDB(h: HubCommunity): DBCommunity
    requires h.admins != []
  {
    DBCommunity(
      h.communityID, h.name, h.channels, h.censusType,
      if IsTokenType(h.censusType) then Some(h.censusAddresses) else None,
      if IsChannelType(h.censusType) then h.censusChannel else "",
      h.imageURL, h.groupChatURL, h.admins[0], Some(h.admins), h.notifications.GetOr(false), h.disabled.GetOr(false),
      false)
  }

  method HubToDB(h: HubCommunity) returns (r: Result<DBCommunity, HubError>)
    ensures r.Ok? <==> HasCensusSource(h) && h.admins != []
    ensures r.Ok? ==> IsRecordOf(h, r.value) && r.value.creator == h.admins[0] && !r.value.featured
    ensures r.Ok? ==> r.value == ToDB(h)
    ensures r.Err? ==> r.error == if HasCensusSource(h) then IndexOutOfRange
                                  else if IsChannelType(h.censusType) then NoChannelProvided
                                  else if IsTokenType(h.censusType) then BadCensusAddresses else UnknownCensusType
  {
    var channel, addresses := "", None;
    if IsChannelType(h.censusType) {
      if h.censusChannel == "" { return Err(NoChannelProvided); }
      channel := h.censusChannel;
    } else if IsTokenType(h.censusType) {
      var found := [];
      for i := 0 to |h.censusAddresses|
        invariant found == h.censusAddresses[..i]
      {
        found := found + [Token(h.censusAddresses[i].blockchain, h.censusAddresses[i].address)];
      }
      assert h.censusAddresses[..|h.censusAddresses|] == h.censusAddresses;
      if |found| == 0 { return Err(BadCensusAddresses); }
      addresses := Some(found);
    } else {
      return Err(UnknownCensusType);
    }
    if |h.admins| == 0 {
      return Err(IndexOutOfRange);
    }
    var c := DBCommunity(
      h.communityID, h.name, h.channels, h.censusType, addresses, channel, h.imageURL, h.groupChatURL,
      h.admins[0], Some(h.admins), false, false, false);
    if h.notifications.Some? {
      c := c.(notifications := h.notifications.value);
    }
    if h.disabled.Some? {
      c := c.(disabled := h.disabled.value);
    }
    r := Ok(c);
  }

  function Without(ns: seq<nat>, n: nat): seq<nat> {
    if ns == [] then []
    else Without(ns[..|ns| - 1], n) + if ns[|ns| - 1] == n then [] else [ns[|ns| - 1]]
  }

  function FromDB(c: DBCommunity, contractID: nat, chainID: nat): HubCommunity {
    HubCommunity(
      c.id, contractID, chainID, c.name, c.imageURL, c.groupChatURL, c.censusType,
      if IsTokenType(c.censusType) then c.censusAddresses.GetOr([]) else [], c.censusChannel, c.channels,
      [c.creator] + Without(c.admins.GetOr([]), c.creator), Some(c.notifications), Some(c.disabled), 0, None)
  }

  method DBToHub(c: DBCommunity, contractID: nat, chainID: nat) returns (h: HubCommunity)
    ensures h.communityID == c.id && h.contractID == contractID && h.chainID == chainID
    ensures h.name == c.name && h.imageURL == c.imageURL && h.groupChatURL == c.groupChatURL && h.channels == c.channels
    ensures h.censusType == c.censusType && h.censusChannel == c.censusChannel
    ensures h.censusAddresses == if c.censusType in {"erc20", "nft"} then c.censusAddresses.GetOr([]) else []
    ensures h.admins == [c.creator] + Without(c.admins.GetOr([]), c.creator)
    ensures h.notifications == Some(c.notifications) && h.disabled == Some(c.disabled)
    ensures h == FromDB(c, contractID, chainID)
  {
    CensusKinds(c.censusType, 0);
    var addresses := [];
    if IsTokenType(c.censusType) {
      var stored := c.censusAddresses.GetOr([]);
      for i := 0 to |stored|
        invariant addresses == stored[..i]
      {
        addresses := addresses + [Token(stored[i].blockchain, stored[i].address)];
      }
    }
    var admins, stored := [c.creator], c.admins.GetOr([]);
    for i := 0 to |stored|
      invariant admins == [c.creator] + Without(stored[..i], c.creator)
    {
      assert stored[..i + 1][..i] == stored[..i];
      if stored[i] == c.creator {
        continue;
      }
      admins := admins + [stored[i]];
    }
    assert stored[..|stored|] == stored;
    h := HubCommunity(
      c.id, contractID, chainID, c.name, c.imageURL, c.groupChatURL, c.censusType, addresses, c.censusChannel,
      c.channels, admins, Some(c.notifications), Some(c.disabled), 0, None);
  }

  // ---------------------------------------------------------- conversions agree

  /** What survives a conversion: unset flags read as false, and only the census source in use is kept. */
  function Canonical(h: HubCommunity): HubCommunity {
    h.(censusAddresses := if IsTokenType(h.censusType) then h.censusAddresses else [],
       censusChannel := if IsChannelType(h.censusType) then h.censusChannel else "",
       notifications := Some(h.notifications.GetOr(false)), disabled := Some(h.disabled.GetOr(false)))
  }

  /** The creator first, and only once. */
  function CreatorFirst(admins: seq<nat>): seq<nat>
    requires admins != []
  {
    [admins[0]] + Without(admins, admins[0])
  }

  lemma {:induction false} CreatorFirstKeepsAdmins(admins: seq<nat>, n: nat)
    ensures n !in Without(admins, n)
    ensures forall m | m != n :: multiset(Without(admins, n))[m] == multiset(admins)[m]
  {
    if admins != [] {
      var front, last := admins[..|admins| - 1], admins[|admins| - 1];
      assert admins == front + [last];
      CreatorFirstKeepsAdmins(front, n);
    }
  }

  /** Converting to the contract and back, and to the database and back, give the same community up to
      the order and repetition of the creator and two fields that the database does not hold. */
  lemma ConversionsAgree(h: HubCommunity)
    requires HasCensusSource(h) && h.admins != []
    requires forall a | a in h.admins :: a < TWO_TO_THE_64
    ensures InternalType(ToContract(h).censusKind) == h.censusType
    ensures FromContract(h.contractID, h.chainID, h.communityID, ToContract(h)) == Canonical(h)
    ensures FromDB(ToDB(h), h.contractID, h.chainID)
            == Canonical(h).(admins := CreatorFirst(h.admins), createElectionPermission := 0, funds := None)
  {
    assert forall i | 0 <= i < |h.admins| :: h.admins[i] in h.admins;
    assert CutTo64(h.admins) == h.admins;
    assert CHANNEL != ERC20 && CHANNEL != NFT && FOLLOWERS != ERC20 && FOLLOWERS != NFT && CHANNEL != FOLLOWERS
        && ERC20 != NFT;
  }
}
