/** The serialisation helpers applied to stored documents before they are
    returned: printing `ObjectId`s as strings, at the top-level `_id` only or
    throughout a nested value. */
module Serializers {
  import opened Wrappers
  import opened ObjectIds

  /** A stored value: scalars, identities, lists and dictionaries (fields in
      insertion order). */
  datatype Value =
    | Null
    | Bool(b: bool)
    | Num(n: real)
    | Str(s: string)
    | Time(t: int)
    | Oid(id: ObjectId)
    | List(items: seq<Value>)
    | Dict(fields: seq<Field>)

  datatype Field = Field(key: string, value: Value)

  /** A document: the fields of a top-level dictionary. */
  type Doc = seq<Field>

  /** No two fields share a key, as in any Python dictionary. */
  predicate KeysUnique(d: Doc) {
    forall i, j :: 0 <= i < j < |d| ==> d[i].key != d[j].key
  }

  /** `str(oid)`. */
  function Print(o: ObjectId): Value {
    Str(o.hex)
  }

  // ---------------------------------------------------------------------
  // serialize_doc / serialize_docs

  /** The field after `serialize_doc`: an `_id` holding an identity is
      printed. */
  function SerializeField(f: Field): Field {
    if f.key == "_id" && f.value.Oid? then Field(f.key, Print(f.value.id)) else f
  }

  /** `serialize_doc`: `None` stays `None`; otherwise a copy whose `_id`, if
      it holds an identity, is printed, every other field as it was. */
  function SerializeDoc(doc: Option<Doc>): (r: Option<Doc>)
    ensures r.None? <==> doc.None?
    ensures r.Some? ==> |r.value| == |doc.value|
    ensures r.Some? ==> forall i :: 0 <= i < |doc.value| ==> r.value[i].key == doc.value[i].key
    ensures r.Some? ==> forall i :: 0 <= i < |doc.value| && doc.value[i].key != "_id" ==> r.value[i] == doc.value[i]
    ensures r.Some? ==> forall i :: 0 <= i < |doc.value| && !doc.value[i].value.Oid? ==> r.value[i] == doc.value[i]
    ensures r.Some? ==>
              forall i :: 0 <= i < |doc.value| && doc.value[i].key == "_id" && doc.value[i].value.Oid? ==>
                r.value[i].value == Str(doc.value[i].value.id.hex)
  {
    match doc
    case None => None
    case Some(d) => Some(seq(|d|, i requires 0 <= i < |d| => SerializeField(d[i])))
  }

  /** Serialising twice is serialising once. */
  lemma SerializeDocIdempotent(doc: Option<Doc>)
    ensures SerializeDoc(SerializeDoc(doc)) == SerializeDoc(doc)
  {
    if doc.Some? {
      var once := SerializeDoc(doc).value;
      var twice := SerializeDoc(Some(once)).value;
      forall i | 0 <= i < |once| ensures twice[i] == once[i] {
        assert once[i] == SerializeField(doc.value[i]);
        assert twice[i] == SerializeField(once[i]);
      }
      assert twice == once;
    }
  }

  /** The documents present, in order. */
  function Present(docs: seq<Option<Doc>>): (r: seq<Doc>)
    ensures |r| <= |docs|
  {
    if |docs| == 0 then []
    else (if docs[0].Some? then [docs[0].value] else []) + Present(docs[1..])
  }

  /** Dropping the gaps keeps order: the documents present in two lists
      one after the other are those of the first followed by those of the
      second. */
  lemma {:induction false} PresentConcat(a: seq<Option<Doc>>, b: seq<Option<Doc>>)
    ensures Present(a + b) == Present(a) + Present(b)
    decreases |a|
  {
    if |a| == 0 {
      assert a + b == b;
    } else {
      assert (a + b)[1..] == a[1..] + b;
      PresentConcat(a[1..], b);
    }
  }

  /** A document is among those present exactly when the list holds it. */
  lemma {:induction false} PresentMembers(docs: seq<Option<Doc>>, d: Doc)
    ensures d in Present(docs) <==> Some(d) in docs
    decreases |docs|
  {
    if |docs| > 0 {
      PresentMembers(docs[1..], d);
      assert docs == [docs[0]] + docs[1..];
    }
  }

  /** `serialize_docs`: the `None` entries dropped and each remaining
      document serialised, order kept. */
  function SerializeDocs(docs: seq<Option<Doc>>): (r: seq<Doc>)
    ensures |r| == |Present(docs)|
    ensures forall i :: 0 <= i < |r| ==> Some(r[i]) == SerializeDoc(Some(Present(docs)[i]))
  {
    var present := Present(docs);
    seq(|present|, i requires 0 <= i < |present| => SerializeDoc(Some(present[i])).value)
  }

  /** Serialising a list in two parts and joining the results is serialising
      it whole: the order of the documents present is kept, gaps and all. */
  lemma SerializeDocsConcat(a: seq<Option<Doc>>, b: seq<Option<Doc>>)
    ensures SerializeDocs(a + b) == SerializeDocs(a) + SerializeDocs(b)
  {
    PresentConcat(a, b);
    var l := SerializeDocs(a + b);
    var r := SerializeDocs(a) + SerializeDocs(b);
    forall i | 0 <= i < |l| ensures l[i] == r[i] {
      if i >= |SerializeDocs(a)| {
        assert Present(a + b)[i] == Present(b)[i - |Present(a)|];
      } else {
        assert Present(a + b)[i] == Present(a)[i];
      }
    }
  }

  /** A list without gaps serialises entry by entry. */
  lemma {:induction false} SerializeDocsNoGaps(docs: seq<Option<Doc>>)
    requires forall i :: 0 <= i < |docs| ==> docs[i].Some?
    ensures |SerializeDocs(docs)| == |docs|
    ensures forall i :: 0 <= i < |docs| ==> Some(SerializeDocs(docs)[i]) == SerializeDoc(docs[i])
  {
    PresentNoGaps(docs);
  }

  lemma {:induction false} PresentNoGaps(docs: seq<Option<Doc>>)
    requires forall i :: 0 <= i < |docs| ==> docs[i].Some?
    ensures |Present(docs)| == |docs| && forall i :: 0 <= i < |docs| ==> Some(Present(docs)[i]) == docs[i]
  {
    if |docs| > 0 {
      PresentNoGaps(docs[1..]);
      assert Present(docs) == [docs[0].value] + Present(docs[1..]);
    }
  }

  /** A list of only `None`s serialises to nothing. */
  lemma {:induction false} SerializeDocsAllAbsent(docs: seq<Option<Doc>>)
    requires forall i :: 0 <= i < |docs| ==> docs[i].None?
    ensures SerializeDocs(docs) == []
  {
    if |docs| > 0 {
      SerializeDocsAllAbsent(docs[1..]);
      assert Present(docs) == Present(docs[1..]);
    }
  }

  // ---------------------------------------------------------------------
  // convert_object_ids

  /** `convert_object_ids`: every identity, at any depth, printed; keys,
      list lengths and every other scalar kept. */
  function Convert(v: Value): Value
    decreases v
  {
    match v
    case Dict(fields) => Dict(ConvertFields(fields))
    case List(items) => List(ConvertItems(items))
    case Oid(o) => Print(o)
    case _ => v
  }

  /** The dictionary comprehension: a nested dictionary or list is
      converted, an identity printed, anything else kept. */
  function ConvertFields(fields: seq<Field>): (r: seq<Field>)
    ensures |r| == |fields|
    ensures forall i :: 0 <= i < |fields| ==> r[i].key == fields[i].key
    decreases fields
  {
    if |fields| == 0 then []
    else
      var f := fields[0];
      var value := if f.value.Dict? || f.value.List? then Convert(f.value)
                   else if f.value.Oid? then Print(f.value.id)
                   else f.value;
      [Field(f.key, value)] + ConvertFields(fields[1..])
  }

  function ConvertItems(items: seq<Value>): (r: seq<Value>)
    ensures |r| == |items|
    decreases items
  {
    if |items| == 0 then [] else [Convert(items[0])] + ConvertItems(items[1..])
  }

  /** No identity anywhere in the value. */
  predicate OidFree(v: Value)
    decreases v
  {
    match v
    case Oid(_) => false
    case List(items) => forall i :: 0 <= i < |items| ==> OidFree(items[i])
    case Dict(fields) => forall i :: 0 <= i < |fields| ==> OidFree(fields[i].value)
    case _ => true
  }

  /** The same layout: dictionaries with the same keys in the same order,
      lists of the same length, pointwise; an identity may have become its
      printed form; every other scalar is equal. */
  predicate SameShape(a: Value, b: Value)
    decreases a
  {
    match a
    case Dict(fa) =>
      b.Dict? && |b.fields| == |fa| &&
      forall i :: 0 <= i < |fa| ==> b.fields[i].key == fa[i].key && SameShape(fa[i].value, b.fields[i].value)
    case List(ia) =>
      b.List? && |b.items| == |ia| && forall i :: 0 <= i < |ia| ==> SameShape(ia[i], b.items[i])
    case Oid(o) => b == Print(o)
    case _ => b == a
  }

  /** Each converted field is the converted original. */
  lemma {:induction false} ConvertFieldsAt(fields: seq<Field>, i: int)
    requires 0 <= i < |fields|
    ensures ConvertFields(fields)[i] == Field(fields[i].key, Convert(fields[i].value))
    decreases fields
  {
    if i > 0 {
      ConvertFieldsAt(fields[1..], i - 1);
    }
  }

  lemma {:induction false} ConvertItemsAt(items: seq<Value>, i: int)
    requires 0 <= i < |items|
    ensures ConvertItems(items)[i] == Convert(items[i])
    decreases items
  {
    if i > 0 {
      ConvertItemsAt(items[1..], i - 1);
    }
  }

  /** The conversion leaves no identity behind and keeps the layout. */
  lemma {:induction false} ConvertRemovesOids(v: Value)
    ensures OidFree(Convert(v))
    ensures SameShape(v, Convert(v))
    decreases v
  {
    match v
    case Dict(fields) =>
      forall i | 0 <= i < |fields|
        ensures OidFree(Convert(v).fields[i].value)
        ensures Convert(v).fields[i].key == fields[i].key && SameShape(fields[i].value, Convert(v).fields[i].value)
      {
        ConvertFieldsAt(fields, i);
        ConvertRemovesOids(fields[i].value);
      }
    case List(items) =>
      forall i | 0 <= i < |items|
        ensures OidFree(Convert(v).items[i]) && SameShape(items[i], Convert(v).items[i])
      {
        ConvertItemsAt(items, i);
        ConvertRemovesOids(items[i]);
      }
    case _ =>
  }

  /** A value without identities comes back unchanged. */
  lemma {:induction false} ConvertOidFree(v: Value)
    requires OidFree(v)
    ensures Convert(v) == v
    decreases v
  {
    match v
    case Dict(fields) =>
      forall i | 0 <= i < |fields| ensures ConvertFields(fields)[i] == fields[i] {
        ConvertFieldsAt(fields, i);
        ConvertOidFree(fields[i].value);
      }
    case List(items) =>
      forall i | 0 <= i < |items| ensures ConvertItems(items)[i] == items[i] {
        ConvertItemsAt(items, i);
        ConvertOidFree(items[i]);
      }
    case _ =>
  }

  /** Converting twice is converting once. */
  lemma ConvertIdempotent(v: Value)
    ensures Convert(Convert(v)) == Convert(v)
  {
    ConvertRemovesOids(v);
    ConvertOidFree(Convert(v));
  }

  /** For a document whose only identity is its top-level `_id`, the shallow
      and the deep serialisation agree. */
  lemma SerializeDocIsConvert(d: Doc)
    requires forall i :: 0 <= i < |d| ==> (d[i].key == "_id" && d[i].value.Oid?) || OidFree(d[i].value)
    ensures Dict(SerializeDoc(Some(d)).value) == Convert(Dict(d))
  {
    var s := SerializeDoc(Some(d)).value;
    forall i | 0 <= i < |d| ensures s[i] == ConvertFields(d)[i] {
      ConvertFieldsAt(d, i);
      if !(d[i].key == "_id" && d[i].value.Oid?) {
        ConvertOidFree(d[i].value);
      }
    }
  }
}
