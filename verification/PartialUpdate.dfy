/** Updates that write only the fields that are not zero (mongo/types.go). */
module PartialUpdate {
  import opened Prelude

  /** A token contract on a chain, as part of a census source; the address as a number. */
  datatype Token = Token(blockchain: string, address: nat)

  /** The field values of the stored structures. A missing slice or pointer is None. */
  datatype Value =
    | Number(n: nat)
    | Text(s: string)
    | Flag(b: bool)
    | Texts(texts: Option<seq<string>>)
    | Numbers(numbers: Option<seq<nat>>)
    | Reference(ref: Option<(string, string)>)
    | Source(kind: string, addresses: Option<seq<Token>>, channel: string)

  predicate IsZero(v: Value) {
    match v
    case Number(n) => n == 0
    case Text(s) => s == ""
    case Flag(b) => !b
    case Texts(t) => t.None?
    case Numbers(n) => n.None?
    case Reference(r) => r.None?
    case Source(kind, addresses, channel) => kind == "" && addresses.None? && channel == ""
  }

  /** Zero is the number 0, the empty text, false, and what is missing, not what is empty. */
  lemma ZeroValues(v: Value)
    ensures IsZero(v) <==> v in {Number(0), Text(""), Flag(false), Texts(None), Numbers(None), Reference(None),
                                 Source("", None, "")}
  {}

  /** A structure: its exported fields in order, each with the name it has in the database. */
  datatype Field = Field(tag: string, value: Value)

  type Document = map<string, Value>

  ghost predicate TagsDiffer(fields: seq<Field>) {
    forall i, j | 0 <= i < j < |fields| :: fields[i].tag != fields[j].tag
  }

  predicate HasColumn(f: Field) {
    f.tag != "" && f.tag != "-" && f.tag != "_id"
  }

  /** Everything but the identifier, as an insertion or a replacement stores it. */
  function FullDocument(fields: seq<Field>): Document {
    if fields == [] then map[]
    else
      var rest, last := FullDocument(fields[..|fields| - 1]), fields[|fields| - 1];
      if HasColumn(last) then rest[last.tag := last.value] else rest
  }

  predicate IsWritten(f: Field, alwaysUpdateTags: set<string>) {
    HasColumn(f) && (f.tag in alwaysUpdateTags || !IsZero(f.value))
  }

  function UpdateDocument(fields: seq<Field>, alwaysUpdateTags: set<string>): Document {
    if fields == [] then map[]
    else
      var rest, last := UpdateDocument(fields[..|fields| - 1], alwaysUpdateTags), fields[|fields| - 1];
      if IsWritten(last, alwaysUpdateTags) then rest[last.tag := last.value] else rest
  }

  method DynamicUpdateDocument(fields: seq<Field>, alwaysUpdateTags: seq<string>) returns (update: Document)
    ensures update == UpdateDocument(fields, set t | t in alwaysUpdateTags)
    ensures TagsDiffer(fields) ==>
              forall f | f in fields ::
                (f.tag in update <==> f.tag !in {"", "-", "_id"} && (f.tag in alwaysUpdateTags || !IsZero(f.value)))
                && (f.tag in update ==> update[f.tag] == f.value)
  {
    update := map[];
    var alwaysUpdate := set t | t in alwaysUpdateTags;
    for i := 0 to |fields|
      invariant update == UpdateDocument(fields[..i], alwaysUpdate)
    {
      assert fields[..i + 1][..i] == fields[..i];
      var field := fields[i];
      if field.tag == "" || field.tag == "-" || field.tag == "_id" {
        continue;
      }
      if field.tag in alwaysUpdate || !IsZero(field.value) {
        update := update[field.tag := field.value];
      }
    }
    assert fields[..|fields|] == fields;
    if TagsDiffer(fields) {
      UpdateDocumentEntries(fields, alwaysUpdate);
      WrittenFields(fields, alwaysUpdate, update);
    }
  }

  lemma WrittenFields(fields: seq<Field>, always: set<string>, update: Document)
    requires TagsDiffer(fields) && HasEntries(fields, always, update)
    ensures forall f | f in fields ::
              (f.tag in update <==> IsWritten(f, always)) && (f.tag in update ==> update[f.tag] == f.value)
  {
    forall f | f in fields
      ensures (f.tag in update <==> IsWritten(f, always)) && (f.tag in update ==> update[f.tag] == f.value)
    {
      if f.tag in update {
        var g :| g in fields && IsWritten(g, always) && g.tag == f.tag;
        var i :| 0 <= i < |fields| && fields[i] == f;
        var j :| 0 <= j < |fields| && fields[j] == g;
        assert i == j;
      }
    }
  }

  /** The document holds the written fields and nothing else. */
  ghost predicate HasEntries(fields: seq<Field>, always: set<string>, d: Document) {
    && (forall t | t in d :: exists f | f in fields :: IsWritten(f, always) && f.tag == t)
    && (forall f | f in fields && IsWritten(f, always) :: f.tag in d && d[f.tag] == f.value)
  }

  lemma EntryAdded(front: seq<Field>, last: Field, always: set<string>, d: Document)
    requires HasEntries(front, always, d) && forall f | f in front :: f.tag != last.tag
    ensures HasEntries(front + [last], always, if IsWritten(last, always) then d[last.tag := last.value] else d)
  {
    var all, e := front + [last], if IsWritten(last, always) then d[last.tag := last.value] else d;
    assert all[|front|] == last;
    forall t | t in e ensures exists f | f in all :: IsWritten(f, always) && f.tag == t {
      if t in d {
        var f :| f in front && IsWritten(f, always) && f.tag == t;
        assert f in all;
      }
    }
  }

  lemma {:induction false} UpdateDocumentEntries(fields: seq<Field>, always: set<string>)
    requires TagsDiffer(fields)
    ensures HasEntries(fields, always, UpdateDocument(fields, always))
  {
    if fields != [] {
      var front, last := fields[..|fields| - 1], fields[|fields| - 1];
      assert fields == front + [last];
      UpdateDocumentEntries(front, always);
      forall f | f in front ensures f.tag != last.tag {
        var i :| 0 <= i < |front| && front[i] == f;
        assert fields[i].tag != fields[|front|].tag;
      }
      EntryAdded(front, last, always, UpdateDocument(front, always));
    }
  }

  /** A full document is an update that always writes everything. */
  lemma {:induction false} FullIsAlwaysWritten(fields: seq<Field>, all: set<string>)
    requires forall f | f in fields :: f.tag in all
    ensures FullDocument(fields) == UpdateDocument(fields, all)
  {
    if fields != [] {
      FullIsAlwaysWritten(fields[..|fields| - 1], all);
    }
  }

  lemma FullDocumentEntries(fields: seq<Field>)
    requires TagsDiffer(fields)
    ensures forall t :: t in FullDocument(fields) <==> exists f | f in fields :: HasColumn(f) && f.tag == t
    ensures forall f | f in fields && HasColumn(f) ::
            f.tag in FullDocument(fields) && FullDocument(fields)[f.tag] == f.value
  {
    var all := set f | f in fields :: f.tag;
    FullIsAlwaysWritten(fields, all);
    UpdateDocumentEntries(fields, all);
  }

  /** Two states of the same structure. */
  ghost predicate SameTags(before: seq<Field>, after: seq<Field>) {
    |before| == |after| && forall i | 0 <= i < |before| :: before[i].tag == after[i].tag
  }

  /** What skipping can get wrong: a field cleared by `after` that the stored structure still has. */
  ghost predicate ClearsAField(before: seq<Field>, after: seq<Field>, always: set<string>) {
    exists i :: 0 <= i < |before| == |after| && HasColumn(after[i]) && !IsWritten(after[i], always)
                && before[i].value != after[i].value
  }

  lemma MergedEntry(before: seq<Field>, after: seq<Field>, always: set<string>, i: nat)
    requires TagsDiffer(before) && SameTags(before, after) && i < |after| && HasColumn(after[i])
    ensures var merged := FullDocument(before) + UpdateDocument(after, always);
            && after[i].tag in merged
            && merged[after[i].tag] == if IsWritten(after[i], always) then after[i].value else before[i].value
  {
    var t := after[i].tag;
    SameTagsDiffer(before, after);
    FullDocumentEntries(before);
    UpdateDocumentEntries(after, always);
    assert after[i] in after && before[i] in before;
    if t in UpdateDocument(after, always) {
      var f :| f in after && IsWritten(f, always) && f.tag == t;
      var j :| 0 <= j < |after| && after[j] == f;
      assert j == i;
    }
  }

  lemma SameTagsDiffer(before: seq<Field>, after: seq<Field>)
    requires TagsDiffer(before) && SameTags(before, after)
    ensures TagsDiffer(after)
  {
    forall i, j | 0 <= i < j < |after| ensures after[i].tag != after[j].tag {
      assert before[i].tag != before[j].tag;
    }
  }

  lemma ColumnOf(before: seq<Field>, after: seq<Field>, always: set<string>, t: string) returns (i: nat)
    requires TagsDiffer(before) && SameTags(before, after)
    requires t in FullDocument(before) || t in UpdateDocument(after, always) || t in FullDocument(after)
    ensures i < |after| && HasColumn(after[i]) && after[i].tag == t
  {
    SameTagsDiffer(before, after);
    FullDocumentEntries(before);
    FullDocumentEntries(after);
    UpdateDocumentEntries(after, always);
    if t in FullDocument(before) {
      var f :| f in before && HasColumn(f) && f.tag == t;
      i :| 0 <= i < |before| && before[i] == f;
    } else {
      var f :| f in after && HasColumn(f) && f.tag == t;
      i :| 0 <= i < |after| && after[i] == f;
    }
  }

  /** The update stores what a full replacement would, exactly when it clears no field. */
  lemma PartialIsFullIff(before: seq<Field>, after: seq<Field>, always: set<string>)
    requires TagsDiffer(before) && SameTags(before, after)
    ensures FullDocument(before) + UpdateDocument(after, always) == FullDocument(after)
            <==> !ClearsAField(before, after, always)
  {
    var merged := FullDocument(before) + UpdateDocument(after, always);
    SameTagsDiffer(before, after);
    FullDocumentEntries(after);
    if !ClearsAField(before, after, always) {
      forall t | t in merged || t in FullDocument(after)
        ensures t in merged && t in FullDocument(after) && merged[t] == FullDocument(after)[t]
      {
        var i := ColumnOf(before, after, always, t);
        assert after[i] in after;
        MergedEntry(before, after, always, i);
      }
    } else {
      var i: nat :| 0 <= i < |before| == |after| && HasColumn(after[i]) && !IsWritten(after[i], always)
                    && before[i].value != after[i].value;
      assert after[i] in after;
      MergedEntry(before, after, always, i);
    }
  }
}
