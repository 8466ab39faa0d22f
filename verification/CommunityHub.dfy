/** Updating communities: the merge of new data into stored data, and what any number of updates
    and synchronizations leaves in the store (communityhub/hub.go, mongo/community.go). */
module CommunityHub {
  import opened Prelude
  import opened PartialUpdate
  import opened Communities
  import opened Identifiers

  // ------------------------------------------------------------ stored documents

  /** The census source is one field. */
  function CensusOf(c: DBCommunity): Value {
    Source(c.censusType, c.censusAddresses, c.censusChannel)
  }

  function CommunityFields(c: DBCommunity): seq<Field> {
    [Field("_id", Text(c.id)), Field("name", Text(c.name)), Field("channels", Texts(c.channels)),
     Field("census", CensusOf(c)), Field("imageURL", Text(c.imageURL)),
     Field("groupChatURL", Text(c.groupChatURL)), Field("creator", Number(c.creator)),
     Field("owners", Numbers(c.admins)), Field("notifications", Flag(c.notifications)),
     Field("disabled", Flag(c.disabled)), Field("featured", Flag(c.featured))]
  }

  const ALWAYS: set<string> := {"notifications", "disabled"}

  lemma CommunityTagsDiffer(c: DBCommunity)
    ensures TagsDiffer(CommunityFields(c))
  {
    assert "channels"[0] != "imageURL"[0] && "channels"[0] != "disabled"[0] && "channels"[0] != "featured"[0];
    assert "imageURL"[0] != "disabled"[0] && "imageURL"[0] != "featured"[0] && "disabled"[0] != "featured"[0];
    assert "census"[0] != "owners"[0];
  }

  function StoredCommunity(c: DBCommunity): Document {
    FullDocument(CommunityFields(c))
  }

  lemma Column(fields: seq<Field>, i: nat)
    requires TagsDiffer(fields) && i < |fields| && HasColumn(fields[i])
    ensures fields[i].tag in FullDocument(fields) && FullDocument(fields)[fields[i].tag] == fields[i].value
  {
    FullDocumentEntries(fields);
    assert fields[i] in fields;
  }

  /** The columns of a stored community, under their names in the database. */
  lemma StoredColumns(c: DBCommunity)
    ensures var d := StoredCommunity(c);
            && Holds(d, "name", Text(c.name)) && Holds(d, "channels", Texts(c.channels))
            && Holds(d, "census", Source(c.censusType, c.censusAddresses, c.censusChannel))
            && Holds(d, "imageURL", Text(c.imageURL)) && Holds(d, "groupChatURL", Text(c.groupChatURL))
            && Holds(d, "creator", Number(c.creator)) && Holds(d, "owners", Numbers(c.admins))
            && Holds(d, "notifications", Flag(c.notifications)) && Holds(d, "disabled", Flag(c.disabled))
            && Holds(d, "featured", Flag(c.featured))
  {
    var fs := CommunityFields(c);
    CommunityTagsDiffer(c);
    forall i | 1 <= i < 11 ensures Holds(FullDocument(fs), fs[i].tag, fs[i].value) {
      assert HasColumn(fs[i]);
      Column(fs, i);
    }
    assert fs[1].tag == "name" && fs[2].tag == "channels" && fs[3].tag == "census" && fs[4].tag == "imageURL";
    assert fs[5].tag == "groupChatURL" && fs[6].tag == "creator" && fs[7].tag == "owners";
    assert fs[8].tag == "notifications" && fs[9].tag == "disabled" && fs[10].tag == "featured";
  }

  predicate Holds(d: Document, tag: string, v: Value) {
    tag in d && d[tag] == v
  }

  /** The update of mongo/community.go: flags are always written, other fields only when not zero. */
  function CommunityUpdate(c: DBCommunity): Document {
    UpdateDocument(CommunityFields(c), ALWAYS)
  }

  /** What the store holds after the update, read back: fields that are zero keep their old value. */
  function Overlaid(stored: DBCommunity, incoming: DBCommunity): DBCommunity {
    DBCommunity(
      stored.id,
      if incoming.name == "" then stored.name else incoming.name,
      if incoming.channels.None? then stored.channels else incoming.channels,
      if IsZero(CensusOf(incoming)) then stored.censusType else incoming.censusType,
      if IsZero(CensusOf(incoming)) then stored.censusAddresses else incoming.censusAddresses,
      if IsZero(CensusOf(incoming)) then stored.censusChannel else incoming.censusChannel,
      if incoming.imageURL == "" then stored.imageURL else incoming.imageURL,
      if incoming.groupChatURL == "" then stored.groupChatURL else incoming.groupChatURL,
      if incoming.creator == 0 then stored.creator else incoming.creator,
      if incoming.admins.None? then stored.admins else incoming.admins,
      incoming.notifications, incoming.disabled,
      stored.featured || incoming.featured)
  }

  /** `merged` has the written fields of `after` and the others of `before`. */
  ghost predicate IsOverlay(before: seq<Field>, after: seq<Field>, merged: seq<Field>, always: set<string>) {
    && SameTags(before, after) && SameTags(before, merged)
    && forall i | 0 <= i < |after| && HasColumn(after[i]) ::
         merged[i].value == if IsWritten(after[i], always) then after[i].value else before[i].value
  }

  ghost predicate Overlays(tag: string, before: Value, after: Value, merged: Value) {
    HasColumn(Field(tag, after)) ==> merged == if IsWritten(Field(tag, after), ALWAYS) then after else before
  }

  lemma FieldsOverlay(stored: DBCommunity, incoming: DBCommunity)
    ensures IsOverlay(CommunityFields(stored), CommunityFields(incoming), CommunityFields(Overlaid(stored, incoming)),
                      ALWAYS)
  {
    var b, a, m := CommunityFields(stored), CommunityFields(incoming), CommunityFields(Overlaid(stored, incoming));
    forall i | 0 <= i < 11
      ensures b[i].tag == a[i].tag == m[i].tag && Overlays(a[i].tag, b[i].value, a[i].value, m[i].value)
    {
      if i < 4 {
        FirstFieldsOverlay(stored, incoming, i);
      } else if i < 8 {
        MiddleFieldsOverlay(stored, incoming, i);
      } else {
        LastFieldsOverlay(stored, incoming, i);
      }
    }
  }

  ghost predicate FieldOverlays(stored: DBCommunity, incoming: DBCommunity, i: nat)
    requires i < 11
  {
    var b, a, m := CommunityFields(stored)[i], CommunityFields(incoming)[i],
                   CommunityFields(Overlaid(stored, incoming))[i];
    b.tag == a.tag == m.tag && Overlays(a.tag, b.value, a.value, m.value)
  }

  lemma FirstFieldsOverlay(stored: DBCommunity, incoming: DBCommunity, i: nat)
    requires i < 4
    ensures FieldOverlays(stored, incoming, i)
  {
    assert "channels"[0] != "disabled"[0];
  }

  lemma MiddleFieldsOverlay(stored: DBCommunity, incoming: DBCommunity, i: nat)
    requires 4 <= i < 8
    ensures FieldOverlays(stored, incoming, i)
  {
    assert "imageURL"[0] != "disabled"[0];
  }

  lemma LastFieldsOverlay(stored: DBCommunity, incoming: DBCommunity, i: nat)
    requires 8 <= i < 11
    ensures FieldOverlays(stored, incoming, i)
  {
    assert "featured"[0] != "disabled"[0];
  }

  /** Applying the partial update to a stored community stores the overlaid one. */
  lemma UpdateOverlays(stored: DBCommunity, incoming: DBCommunity)
    ensures StoredCommunity(stored) + CommunityUpdate(incoming) == StoredCommunity(Overlaid(stored, incoming))
  {
    CommunityTagsDiffer(stored);
    CommunityTagsDiffer(Overlaid(stored, incoming));
    FieldsOverlay(stored, incoming);
    MergedIs(CommunityFields(stored), CommunityFields(incoming), CommunityFields(Overlaid(stored, incoming)), ALWAYS);
  }

  lemma MergedIs(before: seq<Field>, after: seq<Field>, merged: seq<Field>, always: set<string>)
    requires TagsDiffer(before) && TagsDiffer(merged) && IsOverlay(before, after, merged, always)
    ensures FullDocument(before) + UpdateDocument(after, always) == FullDocument(merged)
  {
    var left, right := FullDocument(before) + UpdateDocument(after, always), FullDocument(merged);
    FullDocumentEntries(merged);
    forall t | t in left || t in right ensures t in left && t in right && left[t] == right[t] {
      var i := IndexOfColumn(before, after, merged, always, t);
      assert merged[i] in merged;
      MergedEntry(before, after, always, i);
    }
  }

  lemma IndexOfColumn(before: seq<Field>, after: seq<Field>, merged: seq<Field>, always: set<string>, t: string)
      returns (i: nat)
    requires TagsDiffer(before) && SameTags(before, after) && SameTags(before, merged) && TagsDiffer(merged)
    requires t in FullDocument(before) || t in UpdateDocument(after, always) || t in FullDocument(merged)
    ensures i < |after| && HasColumn(after[i]) && after[i].tag == t
  {
    if t in FullDocument(before) || t in UpdateDocument(after, always) {
      i := ColumnOf(before, after, always, t);
    } else {
      FullDocumentEntries(merged);
      var f :| f in merged && HasColumn(f) && f.tag == t;
      i :| 0 <= i < |merged| && merged[i] == f;
    }
  }

  // -------------------------------------------------------------------- the merge

  predicate IsValid(h: HubCommunity) {
    h.chainID != 0 && h.name != "" && HasCensusSource(h) && h.admins != []
  }

  /** Unset flags get a default: no notifications, but disabled. */
  function WithDefaults(h: HubCommunity): HubCommunity {
    h.(notifications := Some(h.notifications.GetOr(false)), disabled := Some(h.disabled.GetOr(true)))
  }

  method ValidateData(h: HubCommunity) returns (r: Result<HubCommunity, HubError>)
    ensures r == if IsValid(h) then Ok(WithDefaults(h)) else Err(InvalidCommunityData)
    ensures r.Ok? <==> h.chainID != 0 && h.name != "" && h.admins != []
                       && ((h.censusType in {"channel", "followers"} && h.censusChannel != "")
                           || (h.censusType in {"erc20", "nft"} && h.censusAddresses != []))
    ensures r.Ok? ==> r.value == h.(notifications := r.value.notifications, disabled := r.value.disabled)
    ensures r.Ok? ==> r.value.notifications == if h.notifications.Some? then h.notifications else Some(false)
    ensures r.Ok? ==> r.value.disabled == if h.disabled.Some? then h.disabled else Some(true)
  {
    CensusSourceMeans(h);
    if h.chainID == 0 { return Err(InvalidCommunityData); }
    if h.name == "" { return Err(InvalidCommunityData); }
    if IsChannelType(h.censusType) {
      if h.censusChannel == "" { return Err(InvalidCommunityData); }
    } else if IsTokenType(h.censusType) {
      if |h.censusAddresses| == 0 { return Err(InvalidCommunityData); }
    } else {
      return Err(InvalidCommunityData);
    }
    if |h.admins| == 0 { return Err(InvalidCommunityData); }
    var data := h;
    if data.notifications.None? {
      data := data.(notifications := Some(false));
    }
    if data.disabled.None? {
      data := data.(disabled := Some(true));
    }
    r := Ok(data);
  }

  function Override(current: string, next: string): string {
    if next != "" then next else current
  }

  /** The merged community: what the new data sets wins, except that group chat and channels are
      always taken from the new data, and the census source only in the form the type uses. */
  function Merged(data: HubCommunity, newData: HubCommunity): HubCommunity {
    var t := Override(data.censusType, newData.censusType);
    data.(name := Override(data.name, newData.name), imageURL := Override(data.imageURL, newData.imageURL),
          censusType := t,
          censusChannel := if IsChannelType(t) then Override(data.censusChannel, newData.censusChannel)
                           else data.censusChannel,
          censusAddresses := if IsTokenType(t) && newData.censusAddresses != [] then newData.censusAddresses
                             else data.censusAddresses,
          admins := if newData.admins != [] then newData.admins else data.admins,
          notifications := if newData.notifications.Some? then newData.notifications else data.notifications,
          disabled := if newData.disabled.Some? then newData.disabled else data.disabled,
          groupChatURL := newData.groupChatURL, channels := newData.channels)
  }

  /** New data may leave the admins alone or must start with the creator. */
  predicate KeepsCreator(data: HubCommunity, newData: HubCommunity)
    requires data.admins != []
  {
    newData.admins == [] || newData.admins[0] == data.admins[0]
  }

  /** Field by field: a set field of the new data wins, an unset one leaves the field as it was; group
      chat and channels always come from the new data; the census source follows the resulting type. */
  ghost predicate TakesOver(data: HubCommunity, newData: HubCommunity, r: HubCommunity) {
    && r.communityID == data.communityID && r.contractID == data.contractID && r.chainID == data.chainID
    && r.createElectionPermission == data.createElectionPermission && r.funds == data.funds
    && r.name == (if newData.name == "" then data.name else newData.name)
    && r.imageURL == (if newData.imageURL == "" then data.imageURL else newData.imageURL)
    && r.censusType == (if newData.censusType == "" then data.censusType else newData.censusType)
    && r.censusChannel == (if r.censusType in {"channel", "followers"} && newData.censusChannel != ""
                           then newData.censusChannel else data.censusChannel)
    && r.censusAddresses == (if r.censusType in {"erc20", "nft"} && newData.censusAddresses != []
                             then newData.censusAddresses else data.censusAddresses)
    && r.admins == (if newData.admins == [] then data.admins else newData.admins)
    && r.notifications == (if newData.notifications.Some? then newData.notifications
                           else if data.notifications.Some? then data.notifications else Some(false))
    && r.disabled == (if newData.disabled.Some? then newData.disabled
                      else if data.disabled.Some? then data.disabled else Some(true))
    && r.groupChatURL == newData.groupChatURL && r.channels == newData.channels
  }

  lemma MergedTakesOver(data: HubCommunity, newData: HubCommunity)
    ensures TakesOver(data, newData, Merged(WithDefaults(data), newData))
  {
    CensusKinds(Override(data.censusType, newData.censusType), 0);
  }

  lemma TakesOverIsUnique(data: HubCommunity, newData: HubCommunity, r: HubCommunity)
    requires TakesOver(data, newData, r)
    ensures r == Merged(WithDefaults(data), newData)
  {
    MergedTakesOver(data, newData);
  }

  method JoinCommunityData(current: Option<HubCommunity>, newData: HubCommunity)
      returns (r: Result<HubCommunity, HubError>)
    ensures current.None? ==> r == if IsValid(newData) then Ok(WithDefaults(newData)) else Err(InvalidCommunityData)
    ensures current.Some? ==> (r.Ok? <==> IsValid(current.value) && current.value.communityID == newData.communityID
                                          && KeepsCreator(current.value, newData))
    ensures current.Some? && r.Ok? ==> TakesOver(current.value, newData, r.value)
    ensures current.Some? && r.Ok? ==> r.value == Merged(WithDefaults(current.value), newData)
    ensures current.Some? && r.Err? ==> r.error == if !IsValid(current.value) then InvalidCommunityData
                                                  else if current.value.communityID != newData.communityID
                                                  then CommunityIDMismatch
                                                  else NoAdminCreator
  {
    if current.None? {
      r := ValidateData(newData);
      return;
    }
    r := ValidateData(current.value);
    if r.Err? {
      return;
    }
    if r.value.communityID != newData.communityID {
      return Err(CommunityIDMismatch);
    }
    r := TakeOver(r.value, newData);
    MergedTakesOver(current.value, newData);
  }

  /** The second half of JoinCommunityData: the fields, one by one. */
  method TakeOver(data: HubCommunity, newData: HubCommunity) returns (r: Result<HubCommunity, HubError>)
    requires data.admins != []
    ensures r == if KeepsCreator(data, newData) then Ok(Merged(data, newData)) else Err(NoAdminCreator)
    ensures r.Ok? <==> newData.admins == [] || newData.admins[0] == data.admins[0]
  {
    var name, imageURL, censusType := data.name, data.imageURL, data.censusType;
    if newData.name != "" && name != newData.name {
      name := newData.name;
    }
    if newData.imageURL != "" && imageURL != newData.imageURL {
      imageURL := newData.imageURL;
    }
    if newData.censusType != "" && censusType != newData.censusType {
      censusType := newData.censusType;
    }
    assert name == Override(data.name, newData.name) && imageURL == Override(data.imageURL, newData.imageURL);
    assert censusType == Override(data.censusType, newData.censusType);
    var censusChannel, censusAddresses := data.censusChannel, data.censusAddresses;
    if IsChannelType(censusType) {
      if newData.censusChannel != "" && censusChannel != newData.censusChannel {
        censusChannel := newData.censusChannel;
      }
    } else if IsTokenType(censusType) {
      if |newData.censusAddresses| > 0 {
        censusAddresses := newData.censusAddresses;
      }
    }
    assert censusChannel == if IsChannelType(censusType) then Override(data.censusChannel, newData.censusChannel)
                            else data.censusChannel;
    var admins := data.admins;
    if |newData.admins| > 0 {
      // the creator must stay the first admin
      if newData.admins[0] != admins[0] {
        return Err(NoAdminCreator);
      }
      admins := newData.admins;
    }
    var notifications, disabled := data.notifications, data.disabled;
    if newData.notifications.Some? {
      notifications := newData.notifications;
    }
    if newData.disabled.Some? {
      disabled := newData.disabled;
    }
    r := Ok(data.(name := name, imageURL := imageURL, censusType := censusType, censusChannel := censusChannel,
                  censusAddresses := censusAddresses, admins := admins, notifications := notifications,
                  disabled := disabled, groupChatURL := newData.groupChatURL, channels := newData.channels));
  }

  // -------------------------------------------------------- merging into the store

  /** What merging new data into a community as it was read writes; None when a step refuses. */
  function MergedForDB(read: DBCommunity, contractID: nat, chainID: nat, newData: HubCommunity): Option<DBCommunity> {
    var data := FromDB(read, contractID, chainID);
    if !IsValid(data) || data.communityID != newData.communityID || !KeepsCreator(data, newData) then None
    else
      var merged := Merged(WithDefaults(data), newData);
      if HasCensusSource(merged) && merged.admins != [] then Some(ToDB(merged)) else None
  }

  /** The stored community after a merge with nothing in between; None when a step refuses. */
  function StoredAfter(stored: DBCommunity, contractID: nat, chainID: nat, newData: HubCommunity): Option<DBCommunity> {
    match MergedForDB(stored, contractID, chainID, newData)
    case Some(c) => Some(Overlaid(stored, c))
    case None => None
  }

  /** A community of which nothing is stored. */
  function Blank(id: string): DBCommunity {
    DBCommunity(id, "", None, "", None, "", "", "", 0, None, false, false, false)
  }

  /** What the database holds for a community after writing it. */
  function Upserted(communities: map<string, DBCommunity>, h: HubCommunity): DBCommunity
    requires h.admins != []
  {
    if h.communityID in communities then Overlaid(communities[h.communityID], ToDB(h)) else ToDB(h)
  }

  /** The funds of a community in the contract; 0 if it is not there. */
  function FundsIn(onchain: map<string, ContractCommunity>, id: string): Option<int> {
    if id in onchain then onchain[id].funds else Some(0)
  }

  class CommunityStore {
    const aliases: map<string, nat>
    const contracts: set<string>
    /** The communities, as the database holds them. */
    var communities: map<string, DBCommunity>
    /** The communities, as the contracts hold them. */
    var onchain: map<string, ContractCommunity>

    constructor (aliases: map<string, nat>, contracts: set<string>, communities: map<string, DBCommunity>)
      ensures this.aliases == aliases && this.contracts == contracts
      ensures this.communities == communities && onchain == map[]
    {
      this.aliases, this.contracts, this.communities, onchain := aliases, contracts, communities, map[];
    }

    /** Reading fails if the database does. */
    method CommunityFromDB(communityID: string, readable: bool) returns (r: Result<HubCommunity, HubError>)
      ensures r == if !readable then Err(GettingCommunity)
                   else if communityID !in communities then Err(CommunityNotFound)
                   else if AliasAndContractID(aliases, communityID).None? then Err(DecodeCommunityID)
                   else var (alias, id) := AliasAndContractID(aliases, communityID).value;
                        Ok(FromDB(communities[communityID], id, aliases[alias]))
    {
      if !readable {
        return Err(GettingCommunity);
      }
      if communityID !in communities {
        return Err(CommunityNotFound);
      }
      var decoded := AliasAndContractID(aliases, communityID);
      if decoded.None? {
        return Err(DecodeCommunityID);
      }
      var h := DBToHub(communities[communityID], decoded.value.1, aliases[decoded.value.0]);
      r := Ok(h);
    }

    /** The update that skips zero fields; a community that is not there is created by it. */
    method UpdateCommunityToDB(h: HubCommunity) returns (error: Option<HubError>)
      modifies this`communities
      ensures error.None? <==> HasCensusSource(h) && h.admins != []
      ensures communities == if error.Some? then old(communities)
                             else old(communities)[h.communityID := Upserted(old(communities), h)]
      ensures error.None? && h.communityID in old(communities) ==>
                StoredCommunity(communities[h.communityID])
                == StoredCommunity(old(communities)[h.communityID]) + CommunityUpdate(ToDB(h))
      ensures error.None? && h.communityID !in old(communities) ==> communities[h.communityID] == ToDB(h)
    {
      var r := HubToDB(h);
      if r.Err? {
        return Some(r.error);
      }
      var current := if h.communityID in communities then communities[h.communityID] else Blank(h.communityID);
      UpdateOverlays(current, r.value);
      communities := communities[h.communityID := Overlaid(current, r.value)];
      error := None;
    }

    /** A community is inserted, or updated without a merge if it is there already. */
    method AddCommunityToDB(h: HubCommunity, readable: bool) returns (error: Option<HubError>)
      modifies this`communities
      ensures error.None? <==> readable && HasCensusSource(h) && h.admins != []
      ensures communities == if error.Some? then old(communities)
                             else old(communities)[h.communityID := Upserted(old(communities), h)]
    {
      if !readable {
        return Some(AddCommunity);
      }
      if h.communityID in communities {
        error := UpdateCommunityToDB(h);
        return;
      }
      var r := HubToDB(h);
      if r.Err? {
        return Some(r.error);
      }
      communities := communities[h.communityID := r.value];
      error := None;
    }

    /** A step of the synchronization: what the contract says is merged into the stored community, or
        added if there is none. If a stored community cannot be read, for whatever reason, but is found
        when it is to be added, it is overwritten without a merge. The flags say which of the two
        reads succeed. */
    method SyncCommunity(onchainCommunity: HubCommunity, readable: bool, addReadable: bool)
        returns (error: Option<HubError>)
      requires var id := onchainCommunity.communityID; id in communities ==> communities[id].id == id
      modifies this`communities
      ensures error.Some? ==> communities == old(communities)
      ensures var id := onchainCommunity.communityID;
              error.None? <==> if readable && id in old(communities) && AliasAndContractID(aliases, id).Some?
                               then CanMerge(old(communities), onchainCommunity)
                               else addReadable && HasCensusSource(onchainCommunity) && onchainCommunity.admins != []
      ensures error.None? ==>
                var id := onchainCommunity.communityID;
                var before := old(communities);
                if id !in before then AddsAt(before, id, onchainCommunity, communities)
                else if readable && AliasAndContractID(aliases, id).Some?
                then MergesAt(before, id, onchainCommunity, before[id], communities)
                else OverwritesAt(before, id, onchainCommunity, communities)
    {
      var data := CommunityFromDB(onchainCommunity.communityID, readable);
      if data.Err? {
        error := AddCommunityToDB(onchainCommunity, addReadable);
        return;
      }
      var joined := JoinCommunityData(Some(data.value), onchainCommunity);
      if joined.Err? {
        return Some(joined.error);
      }
      CanMergeIff(communities, onchainCommunity);
      error := UpdateCommunityToDB(joined.value);
      if error.None? {
        MergedWrite(old(communities), onchainCommunity, communities);
      }
    }

    /** The stored community with new data merged in. */
    method MergeStored(newData: HubCommunity, readable: bool) returns (r: Result<HubCommunity, HubError>)
      requires newData.communityID in communities ==> communities[newData.communityID].id == newData.communityID
      ensures r.Ok? <==> readable && CanStart(communities, newData)
      ensures r.Ok? ==> TakesOver(StoredHere(communities, newData.communityID), newData, r.value)
      ensures r.Ok? ==> r.value == Merged(WithDefaults(StoredHere(communities, newData.communityID)), newData)
    {
      var data := CommunityFromDB(newData.communityID, readable);
      if data.Err? {
        return Err(data.error);
      }
      r := JoinCommunityData(Some(data.value), newData);
    }

    /** The transaction on the contract, which may refuse it. The funds stay those the contract holds. */
    method SetCommunity(h: HubCommunity, accepted: bool) returns (error: Option<HubError>)
      modifies this`onchain
      ensures error.None? <==> accepted && HasCensusSource(h)
      ensures error.Some? ==> onchain == old(onchain)
      ensures error.None? ==>
                && onchain.Keys == old(onchain).Keys + {h.communityID} && IsContractOf(h, onchain[h.communityID])
                && onchain[h.communityID].funds == FundsIn(old(onchain), h.communityID)
                && forall id | id in old(onchain) && id != h.communityID :: onchain[id] == old(onchain)[id]
    {
      var cc := HubToContract(h);
      if cc.Err? || !accepted {
        return Some(SettingCommunity);
      }
      onchain := onchain[h.communityID := cc.value.(funds := FundsIn(onchain, h.communityID))];
      error := None;
    }

    /** An update requested by an admin goes to the contract first, and then to the store. */
    method UpdateCommunity(newData: HubCommunity, readable: bool, accepted: bool) returns (error: Option<HubError>)
      requires newData.communityID in communities ==> communities[newData.communityID].id == newData.communityID
      modifies this
      ensures error.None? <==> readable && accepted && CanMerge(old(communities), newData)
                               && AliasAndContractID(aliases, newData.communityID).value.0 in contracts
      ensures error.Some? ==> communities == old(communities) && onchain == old(onchain)
      ensures error.None? ==>
                var id := newData.communityID;
                && MergesAt(old(communities), id, newData, old(communities)[id], communities)
                && onchain.Keys == old(onchain).Keys + {id} && onchain[id].funds == FundsIn(old(onchain), id)
                && IsMergeOnchain(old(communities), newData, onchain[id])
                && (forall k | k in old(onchain) && k != id :: onchain[k] == old(onchain)[k])
                && ReadsBack(newData, StoredHere(communities, id))
    {
      var decoded := AliasAndContractID(aliases, newData.communityID);
      if decoded.None? {
        return Some(DecodeCommunityID);
      }
      if decoded.value.0 !in contracts {
        return Some(ContractNotFound);
      }
      var merged := MergeStored(newData, readable);
      if merged.Err? {
        return Some(merged.error);
      }
      CanMergeIff(communities, newData);
      error := SetCommunity(merged.value, accepted);
      if error.Some? {
        return;
      }
      assert IsMergeOnchain(communities, newData, onchain[newData.communityID]);
      error := UpdateCommunityToDB(merged.value);
      MergedWrite(old(communities), newData, communities);
    }

    /** A stored community, with the numbers its identifier stands for. */
    function StoredHere(before: map<string, DBCommunity>, communityID: string): HubCommunity
      requires communityID in before && AliasAndContractID(aliases, communityID).Some?
    {
      var (alias, id) := AliasAndContractID(aliases, communityID).value;
      FromDB(before[communityID], id, aliases[alias])
    }

    /** The stored community is valid, and the new data keeps its creator in front. */
    predicate CanStart(before: map<string, DBCommunity>, newData: HubCommunity) {
      && newData.communityID in before && AliasAndContractID(aliases, newData.communityID).Some?
      && var data := StoredHere(before, newData.communityID);
         IsValid(data) && data.communityID == newData.communityID && KeepsCreator(data, newData)
    }

    /** New data that can be merged into the stored community. */
    ghost predicate CanMerge(before: map<string, DBCommunity>, newData: HubCommunity) {
      && CanStart(before, newData)
      && exists r :: TakesOver(StoredHere(before, newData.communityID), newData, r) && HasCensusSource(r)
    }

    lemma CanMergeIff(before: map<string, DBCommunity>, newData: HubCommunity)
      requires CanStart(before, newData)
      ensures CanMerge(before, newData)
              <==> HasCensusSource(Merged(WithDefaults(StoredHere(before, newData.communityID)), newData))
    {
      var data := StoredHere(before, newData.communityID);
      MergedTakesOver(data, newData);
      forall r | TakesOver(data, newData, r) ensures r == Merged(WithDefaults(data), newData) {
        TakesOverIsUnique(data, newData, r);
      }
    }

    lemma MergedWrite(before: map<string, DBCommunity>, newData: HubCommunity, after: map<string, DBCommunity>)
      requires CanStart(before, newData)
      requires var merged := Merged(WithDefaults(StoredHere(before, newData.communityID)), newData);
               && HasCensusSource(merged) && merged.admins != []
               && after == before[newData.communityID := Overlaid(before[newData.communityID], ToDB(merged))]
      ensures MergesAt(before, newData.communityID, newData, before[newData.communityID], after)
      ensures ReadsBack(newData, StoredHere(after, newData.communityID))
    {
      var id := newData.communityID;
      var data := StoredHere(before, id);
      StepBy(before, id, data.contractID, data.chainID, newData, after);
      MergeWritesTheNew(before, id, newData, before[id], after, data.contractID, data.chainID);
    }

    /** The contract holds what taking the new data over into the stored community gives. */
    ghost predicate IsMergeOnchain(before: map<string, DBCommunity>, newData: HubCommunity, cc: ContractCommunity)
      requires newData.communityID in before && AliasAndContractID(aliases, newData.communityID).Some?
    {
      exists r :: TakesOver(StoredHere(before, newData.communityID), newData, r) && IsContractOf(r, cc)
    }
  }

  // ------------------------------------------------------- what is read back

  /** Whatever the new data sets is what the database gives back; of the admins, the creator comes once,
      in front. */
  ghost predicate ReadsBack(newData: HubCommunity, h: HubCommunity) {
    && (newData.name != "" ==> h.name == newData.name)
    && (newData.imageURL != "" ==> h.imageURL == newData.imageURL)
    && (newData.groupChatURL != "" ==> h.groupChatURL == newData.groupChatURL)
    && (newData.channels.Some? ==> h.channels == newData.channels)
    && (newData.censusType != "" ==> h.censusType == newData.censusType)
    && (h.censusType in {"channel", "followers"} && newData.censusChannel != "" ==>
          h.censusChannel == newData.censusChannel)
    && (h.censusType in {"erc20", "nft"} && newData.censusAddresses != [] ==>
          h.censusAddresses == newData.censusAddresses)
    && (newData.admins != [] && newData.admins[0] != 0 ==> h.admins == CreatorFirst(newData.admins))
    && (newData.notifications.Some? ==> h.notifications == newData.notifications)
    && (newData.disabled.Some? ==> h.disabled == newData.disabled)
  }

  /** Whatever the new data leaves unset stays as it was stored. */
  ghost predicate LeavesTheRest(stored: DBCommunity, newData: HubCommunity, c: DBCommunity) {
    && c.id == stored.id && c.featured == stored.featured
    && (newData.name == "" ==> c.name == stored.name)
    && (newData.imageURL == "" ==> c.imageURL == stored.imageURL)
    && (newData.groupChatURL == "" ==> c.groupChatURL == stored.groupChatURL)
    && (newData.channels.None? ==> c.channels == stored.channels)
    && (newData.censusType == "" ==> c.censusType == stored.censusType)
    && (newData.notifications.None? ==> c.notifications == stored.notifications)
    && (newData.disabled.None? ==> c.disabled == stored.disabled)
    && (newData.admins == [] ==> c.admins == Some([stored.creator] + Without(stored.admins.GetOr([]), stored.creator)))
  }

  lemma MergedReadsBack(read: DBCommunity, contractID: nat, chainID: nat, newData: HubCommunity, stored: DBCommunity,
                        atID: nat, atChain: nat)
    requires MergedForDB(read, contractID, chainID, newData).Some?
    ensures var written := Overlaid(stored, MergedForDB(read, contractID, chainID, newData).value);
            ReadsBack(newData, FromDB(written, atID, atChain))
  {
    CensusKinds(Override(read.censusType, newData.censusType), 0);
  }

  /** A merge that was read at any time writes what the new data sets. */
  lemma MergeWritesTheNew(before: map<string, DBCommunity>, id: string, newData: HubCommunity, read: DBCommunity,
                          after: map<string, DBCommunity>, atID: nat, atChain: nat)
    requires MergesAt(before, id, newData, read, after)
    ensures id in after && ReadsBack(newData, FromDB(after[id], atID, atChain))
  {
    var contractID: nat, chainID: nat :| MergedForDB(read, contractID, chainID, newData).Some?
        && var merged := MergedForDB(read, contractID, chainID, newData).value;
           after == before[id := Overlaid(before[id], merged)];
    MergedReadsBack(read, contractID, chainID, newData, before[id], atID, atChain);
  }

  /** With nothing between read and write, the rest stays as it was. */
  lemma MergeLeavesTheRest(stored: DBCommunity, contractID: nat, chainID: nat, newData: HubCommunity)
    requires StoredAfter(stored, contractID, chainID, newData).Some?
    ensures LeavesTheRest(stored, newData, StoredAfter(stored, contractID, chainID, newData).value)
  {}

  // ------------------------------------------------------------------ whole runs

  lemma StepBy(before: map<string, DBCommunity>, id: string, contractID: nat, chainID: nat, newData: HubCommunity,
               after: map<string, DBCommunity>)
    requires id in before && id == newData.communityID && StoredAfter(before[id], contractID, chainID, newData).Some?
    requires after == before[id := StoredAfter(before[id], contractID, chainID, newData).value]
    ensures MergesAt(before, id, newData, before[id], after)
  {
    assert MergedForDB(before[id], contractID, chainID, newData).Some?;
  }

  /** The store after merging new data into a community that was read as `read`, maybe earlier. */
  ghost predicate MergesAt(before: map<string, DBCommunity>, id: string, newData: HubCommunity, read: DBCommunity,
                           after: map<string, DBCommunity>) {
    && id in before && id == newData.communityID
    && exists contractID, chainID ::
         var r := MergedForDB(read, contractID, chainID, newData);
         r.Some? && after == before[id := Overlaid(before[id], r.value)]
  }

  /** The store after adding a community that it did not have. */
  ghost predicate AddsAt(before: map<string, DBCommunity>, id: string, newData: HubCommunity,
                         after: map<string, DBCommunity>) {
    && id !in before && id == newData.communityID
    && HasCensusSource(newData) && newData.admins != []
    && after == before[id := ToDB(newData)]
  }

  /** The store after writing a community over the stored one, without a merge. */
  ghost predicate OverwritesAt(before: map<string, DBCommunity>, id: string, newData: HubCommunity,
                               after: map<string, DBCommunity>) {
    && id in before && id == newData.communityID
    && HasCensusSource(newData) && newData.admins != []
    && after == before[id := Overlaid(before[id], ToDB(newData))]
  }

  /** One merge: the creator stays, is the first stored admin, and is not repeated in what is read
      back; the featured mark and the identifier stay too. */
  lemma MergeKeepsCreator(stored: DBCommunity, contractID: nat, chainID: nat, newData: HubCommunity)
    requires StoredAfter(stored, contractID, chainID, newData).Some?
    ensures var c := StoredAfter(stored, contractID, chainID, newData).value;
            && c.creator == stored.creator && c.featured == stored.featured && c.id == stored.id
            && c.admins.Some? && c.admins.value != [] && c.admins.value[0] == stored.creator
  {}

  /** A write to the store. A merge names the state of the run from which its community was read, as
      other writes may come between the read and the write. */
  datatype Write =
    | Merge(id: string, newData: HubCommunity, readAt: nat)
    | Add(id: string, newData: HubCommunity)
    | Overwrite(id: string, newData: HubCommunity)

  type Store = map<string, DBCommunity>

  ghost predicate Writes(states: seq<Store>, i: nat, w: Write)
    requires i + 1 < |states|
  {
    match w
    case Merge(id, newData, k) =>
      k <= i && id in states[k] && MergesAt(states[i], id, newData, states[k][id], states[i + 1])
    case Add(id, newData) => AddsAt(states[i], id, newData, states[i + 1])
    case Overwrite(id, newData) => OverwritesAt(states[i], id, newData, states[i + 1])
  }

  /** Any number of updates and synchronizations, of any communities, at the same time. */
  ghost predicate IsRun(states: seq<Store>, writes: seq<Write>) {
    && |states| == |writes| + 1
    && forall i {:trigger Writes(states, i, writes[i])} | 0 <= i < |writes| :: Writes(states, i, writes[i])
  }

  lemma WriteFacts(states: seq<Store>, i: nat, w: Write)
    requires i + 1 < |states| && Writes(states, i, w)
    ensures forall k | k in states[i] && k != w.id :: k in states[i + 1] && states[i + 1][k] == states[i][k]
    ensures states[i + 1].Keys == states[i].Keys + {w.id}
    ensures w.id in states[i] ==> states[i + 1][w.id].featured == states[i][w.id].featured
  {}

  /** What one write does to the creator, and who is the first stored admin after it. */
  lemma WriteCreator(states: seq<Store>, i: nat, w: Write)
    requires i + 1 < |states| && Writes(states, i, w)
    ensures w.id in states[i + 1]
    ensures var c := states[i + 1][w.id];
            && c.admins.Some? && c.admins.value != []
            && match w
               case Merge(id, newData, k) =>
                 var read := states[k][id].creator;
                 c.admins.value[0] == read && c.creator == if read == 0 then states[i][id].creator else read
               case Add(id, newData) => c.admins.value[0] == newData.admins[0] == c.creator
               case Overwrite(id, newData) =>
                 var first := newData.admins[0];
                 c.admins.value[0] == first && c.creator == if first == 0 then states[i][id].creator else first
  {
    if w.Merge? {
      var read := states[w.readAt][w.id];
      var contractID: nat, chainID: nat :| MergedForDB(read, contractID, chainID, w.newData).Some?
          && var merged := MergedForDB(read, contractID, chainID, w.newData).value;
             states[i + 1] == states[i][w.id := Overlaid(states[i][w.id], merged)];
      MergeKeepsCreator(read, contractID, chainID, w.newData);
      assert MergedForDB(read, contractID, chainID, w.newData).value.creator == read.creator;
    }
  }

  lemma {:induction false} StaysStored(states: seq<Store>, writes: seq<Write>, i: nat, j: nat, id: string)
    requires IsRun(states, writes) && i <= j < |states| && id in states[i]
    ensures id in states[j] && states[j][id].featured == states[i][id].featured
    decreases j
  {
    if i < j {
      StaysStored(states, writes, i, j - 1, id);
      assert Writes(states, j - 1, writes[j - 1]);
      WriteFacts(states, j - 1, writes[j - 1]);
    }
  }

  /** The community has one creator in all states up to `n` that have it. */
  ghost predicate OneCreatorUpTo(states: seq<Store>, id: string, n: nat)
    requires n < |states|
  {
    forall j, k | 0 <= j <= n && 0 <= k <= n && id in states[j] && id in states[k] ::
        states[j][id].creator == states[k][id].creator
  }

  /** A write without a merge names the stored creator first, or nobody. */
  ghost predicate SparesCreator(s: Store, w: Write) {
    w.Overwrite? && w.id in s && w.newData.admins != [] ==>
      w.newData.admins[0] == s[w.id].creator || w.newData.admins[0] == 0
  }

  lemma OneWriteMore(states: seq<Store>, writes: seq<Write>, id: string, n: nat)
    requires IsRun(states, writes) && n + 1 < |states| && OneCreatorUpTo(states, id, n)
    ensures OneCreatorUpTo(states, id, n + 1) <==> (writes[n].id == id ==> SparesCreator(states[n], writes[n]))
  {
    var w := writes[n];
    assert Writes(states, n, w);
    WriteFacts(states, n, w);
    WriteCreator(states, n, w);
    if id in states[n] {
      assert forall j | 0 <= j <= n && id in states[j] :: states[j][id].creator == states[n][id].creator;
      assert OneCreatorUpTo(states, id, n + 1) <==> states[n + 1][id].creator == states[n][id].creator;
    } else {
      forall j | 0 <= j <= n ensures id !in states[j] {
        if id in states[j] {
          StaysStored(states, writes, j, n, id);
        }
      }
    }
  }

  lemma {:induction false} OneCreatorSoFar(states: seq<Store>, writes: seq<Write>, id: string, n: nat)
    requires IsRun(states, writes) && n < |states|
    requires forall i | 0 <= i < |writes| && writes[i].id == id :: SparesCreator(states[i], writes[i])
    ensures OneCreatorUpTo(states, id, n)
  {
    if n > 0 {
      OneCreatorSoFar(states, writes, id, n - 1);
      OneWriteMore(states, writes, id, n - 1);
    }
  }

  /** Over every run, merges from reads of any age included, the creator of a community never changes
      exactly when every write without a merge names that creator first, or nobody. */
  lemma CreatorNeverChangesIff(states: seq<Store>, writes: seq<Write>, id: string)
    requires IsRun(states, writes)
    ensures OneCreatorUpTo(states, id, |writes|)
            <==> forall i | 0 <= i < |writes| && writes[i].id == id :: SparesCreator(states[i], writes[i])
  {
    if OneCreatorUpTo(states, id, |writes|) {
      forall i | 0 <= i < |writes| && writes[i].id == id ensures SparesCreator(states[i], writes[i]) {
        assert OneCreatorUpTo(states, id, i) && OneCreatorUpTo(states, id, i + 1);
        OneWriteMore(states, writes, id, i);
      }
    }
    if forall i | 0 <= i < |writes| && writes[i].id == id :: SparesCreator(states[i], writes[i]) {
      OneCreatorSoFar(states, writes, id, |writes|);
    }
  }

  /** With updates, additions and synchronizations that can read what they merge into, nothing changes
      the creator, and the featured mark stays in any case. */
  lemma CreatorNeverChanges(states: seq<Store>, writes: seq<Write>, i: nat, j: nat, id: string)
    requires IsRun(states, writes) && i <= j < |states| && id in states[i]
    requires NeverOverwritten(writes, id)
    ensures id in states[j] && states[j][id].creator == states[i][id].creator
            && states[j][id].featured == states[i][id].featured
  {
    CreatorNeverChangesIff(states, writes, id);
    StaysStored(states, writes, i, j, id);
  }

  predicate CreatorIsFirst(c: DBCommunity) {
    c.admins.Some? && c.admins.value != [] && c.admins.value[0] == c.creator
  }

  lemma FirstAfterWrite(states: seq<Store>, writes: seq<Write>, n: nat)
    requires IsRun(states, writes) && n < |writes|
    requires NeverOverwritten(writes, writes[n].id)
    ensures writes[n].id in states[n + 1] && CreatorIsFirst(states[n + 1][writes[n].id])
  {
    var w := writes[n];
    assert Writes(states, n, w);
    WriteCreator(states, n, w);
    if w.Merge? {
      CreatorNeverChanges(states, writes, w.readAt, n + 1, w.id);
    }
  }

  lemma OthersStay(states: seq<Store>, writes: seq<Write>, n: nat, id: string)
    requires IsRun(states, writes) && n < |writes| && writes[n].id != id && id in states[n]
    ensures id in states[n + 1] && states[n + 1][id] == states[n][id]
  {
    assert Writes(states, n, writes[n]);
    WriteFacts(states, n, writes[n]);
  }

  ghost predicate NeverOverwritten(writes: seq<Write>, id: string) {
    forall k | 0 <= k < |writes| && writes[k].id == id :: !writes[k].Overwrite?
  }

  ghost predicate HasCreatorFirst(s: Store, id: string) {
    id in s && CreatorIsFirst(s[id])
  }

  lemma StaysFirst(states: seq<Store>, writes: seq<Write>, n: nat, id: string)
    requires IsRun(states, writes) && n < |writes| && NeverOverwritten(writes, id)
    requires writes[n].id == id || HasCreatorFirst(states[n], id)
    ensures HasCreatorFirst(states[n + 1], id)
  {
    if writes[n].id == id {
      FirstAfterWrite(states, writes, n);
    } else {
      OthersStay(states, writes, n, id);
    }
  }

  /** In such runs, once a community has been written, its creator is the first stored admin ever after. */
  lemma {:induction false} CreatorStaysFirstAdmin(states: seq<Store>, writes: seq<Write>, i: nat, j: nat, id: string)
    requires IsRun(states, writes) && i < j < |states|
    requires writes[i].id == id && NeverOverwritten(writes, id)
    ensures HasCreatorFirst(states[j], id)
    decreases j
  {
    if i < j - 1 {
      CreatorStaysFirstAdmin(states, writes, i, j - 1, id);
    }
    StaysFirst(states, writes, j - 1, id);
  }

  /** A failed read lets a synchronization replace the creator: the contract names another one first. */
  lemma FailedReadReplacesCreator(stored: DBCommunity, onchain: HubCommunity)
    requires stored.id == onchain.communityID && HasCensusSource(onchain) && onchain.admins != []
    requires onchain.admins[0] != stored.creator && onchain.admins[0] != 0
    ensures var before := map[stored.id := stored];
            var states := [before, before[stored.id := Overlaid(stored, ToDB(onchain))]];
            && IsRun(states, [Overwrite(stored.id, onchain)])
            && states[1][stored.id].creator != states[0][stored.id].creator
  {
    var before := map[stored.id := stored];
    var states := [before, before[stored.id := Overlaid(stored, ToDB(onchain))]];
    assert Writes(states, 0, Overwrite(stored.id, onchain));
  }

  /** The merge always takes the group chat and the channels from the new data, but the store skips
      what is empty. What is stored is the merged community exactly when neither was cleared. */
  lemma StoreFollowsMergeIff(stored: DBCommunity, contractID: nat, chainID: nat, newData: HubCommunity)
    requires StoredAfter(stored, contractID, chainID, newData).Some?
    ensures var merged := Merged(WithDefaults(FromDB(stored, contractID, chainID)), newData);
            StoredAfter(stored, contractID, chainID, newData) == Some(ToDB(merged).(featured := stored.featured))
            <==> ((newData.groupChatURL == "" ==> stored.groupChatURL == "")
                  && (newData.channels.None? ==> stored.channels.None?))
  {}

  function CommunityWithChat(url: string): DBCommunity {
    DBCommunity("degen:1", "c", Some(["a"]), CHANNEL, None, "a", "", url, 7, Some([7]), false, false, false)
  }

  /** A cleared group chat: the merge drops it and the store keeps it. */
  lemma ClearedGroupChatIsKept(url: string)
    requires url != ""
    ensures var stored := CommunityWithChat(url);
            var newData := FromDB(stored, 1, 1).(groupChatURL := "");
            && Merged(WithDefaults(FromDB(stored, 1, 1)), newData).groupChatURL == ""
            && StoredAfter(stored, 1, 1, newData).Some?
            && StoredAfter(stored, 1, 1, newData).value.groupChatURL == url
  {
    var stored := CommunityWithChat(url);
    var data := FromDB(stored, 1, 1);
    var newData := data.(groupChatURL := "");
    assert IsChannelType(CHANNEL) && !IsTokenType(CHANNEL);
    assert data.admins[0] == 7 && IsValid(data) && KeepsCreator(data, newData);
    assert HasCensusSource(Merged(WithDefaults(data), newData));
  }
}
