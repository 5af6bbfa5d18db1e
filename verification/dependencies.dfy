/** The shared request-time checks: identifier validation, validate-then-find
    lookups (single and batch), and pagination-parameter validation. */
module Dependencies {
  import opened Wrappers
  import Text
  import opened ObjectIds
  import opened Collections
  import opened Documents
  import Settings

  /** `validate_object_id`: the identity a string names, or a 400 naming the
      resource. */
  function ValidateObjectId(id: string, resource: string): (r: Result<ObjectId, Error>)
    ensures r.Failure? <==> !IsValid(id)
    ensures r.Failure? ==> r.error == InvalidId(resource, id)
    ensures r.Success? ==> Canonical(r.value) && r.value.hex == Text.Lower(id)
  {
    match Parse(id)
    case None => Failure(InvalidId(resource, id))
    case Some(oid) => Success(oid)
  }

  /** Some record of `c` is stored under `oid`. */
  predicate Stored<T>(c: seq<Keyed<T>>, oid: ObjectId) {
    exists k :: 0 <= k < |c| && c[k].id == oid
  }

  /** Validate the identifier (400), then look it up (404). */
  function LookupById<T>(c: seq<Keyed<T>>, resource: string, id: string): (r: Result<T, Error>)
    ensures !IsValid(id) ==> r == Failure(InvalidId(resource, id))
    ensures IsValid(id) && !Stored(c, ObjectId(Text.Lower(id))) ==> r == Failure(NotFound(resource, id))
    ensures r.Success? <==> IsValid(id) && Stored(c, ObjectId(Text.Lower(id)))
    ensures r.Success? ==> exists k :: 0 <= k < |c| && c[k].id.hex == Text.Lower(id) && IsFirst(c, k) && c[k].doc == r.value
    ensures r.Success? ==> Find(c, ObjectId(Text.Lower(id))) == Some(r.value)
  {
    var oid :- ValidateObjectId(id, resource);
    match Find(c, oid)
    case None => Failure(NotFound(resource, id))
    case Some(d) => Success(d)
  }

  /** `verify_product_exists`. */
  function VerifyProductExists(ps: seq<Keyed<Product>>, id: string): (r: Result<Product, Error>)
    ensures !IsValid(id) ==> r == Failure(InvalidId("product", id))
    ensures IsValid(id) && !Stored(ps, ObjectId(Text.Lower(id))) ==> r == Failure(NotFound("product", id))
    ensures r.Success? <==> IsValid(id) && Stored(ps, ObjectId(Text.Lower(id)))
    ensures r.Success? ==> exists k :: 0 <= k < |ps| && ps[k].id.hex == Text.Lower(id) && IsFirst(ps, k) && ps[k].doc == r.value
    ensures r.Success? ==> Find(ps, ObjectId(Text.Lower(id))) == Some(r.value)
  {
    LookupById(ps, "product", id)
  }

  /** `verify_order_exists`. */
  function VerifyOrderExists(os: seq<Keyed<Order>>, id: string): (r: Result<Order, Error>)
    ensures !IsValid(id) ==> r == Failure(InvalidId("order", id))
    ensures IsValid(id) && !Stored(os, ObjectId(Text.Lower(id))) ==> r == Failure(NotFound("order", id))
    ensures r.Success? <==> IsValid(id) && Stored(os, ObjectId(Text.Lower(id)))
    ensures r.Success? ==> exists k :: 0 <= k < |os| && os[k].id.hex == Text.Lower(id) && IsFirst(os, k) && os[k].doc == r.value
    ensures r.Success? ==> Find(os, ObjectId(Text.Lower(id))) == Some(r.value)
  {
    LookupById(os, "order", id)
  }

  /** `ids[i]` is the first malformed identifier. */
  predicate FirstInvalid(ids: seq<string>, i: int) {
    0 <= i < |ids| && !IsValid(ids[i]) && forall j :: 0 <= j < i ==> IsValid(ids[j])
  }

  /** The loop validating every identifier before any query: the identities,
      or the 400 for the first malformed one. */
  function ValidateAll(ids: seq<string>, resource: string): (r: Result<seq<ObjectId>, Error>)
    ensures r.Success? <==> forall i :: 0 <= i < |ids| ==> IsValid(ids[i])
    ensures r.Success? ==> |r.value| == |ids| && forall i :: 0 <= i < |ids| ==> r.value[i] == ObjectId(Text.Lower(ids[i]))
    ensures r.Failure? ==> exists i :: FirstInvalid(ids, i) && r.error == InvalidId(resource, ids[i])
  {
    if |ids| == 0 then Success([])
    else
      var head :- ValidateObjectId(ids[0], resource);
      match ValidateAll(ids[1..], resource)
      case Failure(e) =>
        assert exists i :: FirstInvalid(ids[1..], i) && e == InvalidId(resource, ids[1..][i]);
        var i :| FirstInvalid(ids[1..], i) && e == InvalidId(resource, ids[1..][i]);
        assert FirstInvalid(ids, i + 1);
        Failure(e)
      case Success(rest) => Success([head] + rest)
  }

  function SetOf(ids: seq<string>): set<string> {
    set i | 0 <= i < |ids| :: ids[i]
  }

  /** `{"_id": {"$in": oids}}`. */
  function IdIn(oids: seq<ObjectId>): Keyed<Product> -> bool {
    (r: Keyed<Product>) => r.id in oids
  }

  /** `(str(p["_id"]), p)` for each found document. */
  function PrintedPairs(found: seq<Keyed<Product>>): (r: seq<(string, Product)>)
    ensures |r| == |found|
    ensures forall i :: 0 <= i < |found| ==> r[i] == (found[i].id.hex, found[i].doc)
  {
    seq(|found|, i requires 0 <= i < |found| => (found[i].id.hex, found[i].doc))
  }

  /** The identifier strings the batch lookup reports as found: a requested
      string counts only if it equals the printed (lower-case) form of a
      stored identity. */
  predicate FoundAsWritten(ps: seq<Keyed<Product>>, id: string) {
    Text.IsLower(id) && Stored(ps, ObjectId(id))
  }

  /** The requested strings the batch lookup reports as absent. */
  function MissingAsWritten(ps: seq<Keyed<Product>>, ids: seq<string>): set<string> {
    set i | 0 <= i < |ids| && !FoundAsWritten(ps, ids[i]) :: ids[i]
  }

  /** `verify_products_exist`, as written.  The result maps printed
      identities to documents; absent identifiers are those requested strings
      that are not among the printed identities found. */
  function VerifyProductsExist(ps: seq<Keyed<Product>>, ids: seq<string>): (r: Result<map<string, Product>, Error>)
    ensures (exists i :: FirstInvalid(ids, i)) ==> r.Failure? && exists i :: FirstInvalid(ids, i) && r.error == InvalidId("product", ids[i])
    ensures r.Success? <==> (forall i :: 0 <= i < |ids| ==> IsValid(ids[i]) && FoundAsWritten(ps, ids[i]))
    ensures r.Success? ==> r.value.Keys == SetOf(ids)
    ensures r.Success? ==>
              forall id :: id in r.value ==> exists k :: 0 <= k < |ps| && ps[k].id.hex == id && ps[k].doc == r.value[id]
    ensures r.Failure? && (forall i :: 0 <= i < |ids| ==> IsValid(ids[i])) ==>
              r.error == ProductsNotFound(MissingAsWritten(ps, ids))
  {
    var oids :- ValidateAll(ids, "product");
    var found := Filter(ps, IdIn(oids));
    var productMap := ToMap(PrintedPairs(found));
    var missing := SetOf(ids) - productMap.Keys;
    FoundKeys(ps, ids, oids, found);
    MissingIsMissingAsWritten(ps, ids, productMap.Keys);
    FoundValues(ps, oids, found);
    if missing != {} then Failure(ProductsNotFound(missing)) else Success(productMap)
  }

  lemma MissingIsMissingAsWritten(ps: seq<Keyed<Product>>, ids: seq<string>, keys: set<string>)
    requires forall i :: 0 <= i < |ids| ==> (ids[i] in keys <==> FoundAsWritten(ps, ids[i]))
    requires forall key :: key in keys ==> exists i :: 0 <= i < |ids| && key == Text.Lower(ids[i])
    requires forall i :: 0 <= i < |ids| ==> IsValid(ids[i])
    ensures SetOf(ids) - keys == MissingAsWritten(ps, ids)
    ensures SetOf(ids) - keys == {} ==> keys == SetOf(ids)
  {
    if SetOf(ids) - keys == {} {
      forall key | key in keys ensures key in SetOf(ids) {
        var i :| 0 <= i < |ids| && key == Text.Lower(ids[i]);
        assert ids[i] in SetOf(ids);
        assert ids[i] !in SetOf(ids) - keys;
        assert Text.IsLower(ids[i]);
        Text.LowerOfLower(ids[i]);
      }
      forall id | id in SetOf(ids) ensures id in keys {
        assert id !in SetOf(ids) - keys;
      }
    }
  }

  /** The record a printed pair came from. */
  lemma FoundRecord(ps: seq<Keyed<Product>>, oids: seq<ObjectId>, found: seq<Keyed<Product>>, j: int)
    requires found == Filter(ps, IdIn(oids)) && 0 <= j < |found|
    ensures found[j].id in oids
    ensures exists k :: 0 <= k < |ps| && ps[k] == found[j]
  {
    assert IdIn(oids)(found[j]);
    assert found[j] in found;
    FilterMembership(ps, IdIn(oids), found[j]);
  }

  /** Each value of the dictionary is the document stored under the
      identity its key prints. */
  lemma FoundValues(ps: seq<Keyed<Product>>, oids: seq<ObjectId>, found: seq<Keyed<Product>>)
    requires found == Filter(ps, IdIn(oids))
    ensures var m := ToMap(PrintedPairs(found));
            forall id :: id in m ==> exists k :: 0 <= k < |ps| && ps[k].id.hex == id && ps[k].doc == m[id]
  {
    var pairs := PrintedPairs(found);
    forall id | id in ToMap(pairs)
      ensures exists k :: 0 <= k < |ps| && ps[k].id.hex == id && ps[k].doc == ToMap(pairs)[id]
    {
      ToMapEntryFrom(pairs, id);
      var j :| 0 <= j < |pairs| && pairs[j] == (id, ToMap(pairs)[id]);
      FoundRecord(ps, oids, found, j);
    }
  }

  /** Which requested strings end up among the printed identities found. */
  lemma FoundKeys(ps: seq<Keyed<Product>>, ids: seq<string>, oids: seq<ObjectId>, found: seq<Keyed<Product>>)
    requires |oids| == |ids| && forall i :: 0 <= i < |ids| ==> IsValid(ids[i]) && oids[i] == ObjectId(Text.Lower(ids[i]))
    requires found == Filter(ps, IdIn(oids))
    ensures var keys := ToMap(PrintedPairs(found)).Keys;
            (forall i :: 0 <= i < |ids| ==> (ids[i] in keys <==> FoundAsWritten(ps, ids[i]))) &&
            (forall key :: key in keys ==> exists i :: 0 <= i < |ids| && key == Text.Lower(ids[i]))
  {
    var pairs := PrintedPairs(found);
    var keys := ToMap(pairs).Keys;
    ToMapKeys(pairs);
    forall key | key in keys
      ensures exists i :: 0 <= i < |ids| && key == Text.Lower(ids[i])
    {
      var j :| 0 <= j < |pairs| && pairs[j].0 == key;
      FoundRecord(ps, oids, found, j);
      var m :| 0 <= m < |oids| && oids[m] == found[j].id;
      assert key == Text.Lower(ids[m]);
    }
    forall i | 0 <= i < |ids|
      ensures ids[i] in keys ==> FoundAsWritten(ps, ids[i])
    {
      if ids[i] in keys {
        var j :| 0 <= j < |pairs| && pairs[j].0 == ids[i];
        FoundRecord(ps, oids, found, j);
        var m :| 0 <= m < |oids| && oids[m] == found[j].id;
        Text.LowerIsLower(ids[m]);
        var k :| 0 <= k < |ps| && ps[k] == found[j];
        assert ps[k].id == ObjectId(ids[i]);
      }
    }
    forall i | 0 <= i < |ids|
      ensures FoundAsWritten(ps, ids[i]) ==> ids[i] in keys
    {
      if FoundAsWritten(ps, ids[i]) {
        var k :| 0 <= k < |ps| && ps[k].id == ObjectId(ids[i]);
        Text.LowerOfLower(ids[i]);
        assert IdIn(oids)(ps[k]);
        FilterMembership(ps, IdIn(oids), ps[k]);
        var j :| 0 <= j < |found| && found[j] == ps[k];
        assert pairs[j].0 == ids[i];
      }
    }
  }

  /** `verify_products_exist` corrected: each identifier is looked up as the
      single lookup looks it up, and the result is keyed by the requested
      strings. */
  function VerifyProductsExistFixed(ps: seq<Keyed<Product>>, ids: seq<string>): (r: Result<map<string, Product>, Error>)
    ensures (exists i :: FirstInvalid(ids, i)) ==> r.Failure? && exists i :: FirstInvalid(ids, i) && r.error == InvalidId("product", ids[i])
    ensures r.Success? <==> forall i :: 0 <= i < |ids| ==> VerifyProductExists(ps, ids[i]).Success?
    ensures r.Success? ==> r.value.Keys == SetOf(ids)
    ensures r.Success? ==> forall i :: 0 <= i < |ids| ==> VerifyProductExists(ps, ids[i]) == Success(r.value[ids[i]])
    ensures r.Failure? && (forall i :: 0 <= i < |ids| ==> IsValid(ids[i])) ==>
              r.error == ProductsNotFound(set i | 0 <= i < |ids| && VerifyProductExists(ps, ids[i]).Failure? :: ids[i])
  {
    var _ :- ValidateAll(ids, "product");
    if exists i :: 0 <= i < |ids| && VerifyProductExists(ps, ids[i]).Failure? then
      Failure(ProductsNotFound(set i | 0 <= i < |ids| && VerifyProductExists(ps, ids[i]).Failure? :: ids[i]))
    else
      Success(FoundById(ps, ids))
  }

  /** The answer of the corrected lookup: each requested string mapped to
      the product the single lookup finds for it. */
  function FoundById(ps: seq<Keyed<Product>>, ids: seq<string>): (m: map<string, Product>)
    requires forall i :: 0 <= i < |ids| ==> VerifyProductExists(ps, ids[i]).Success?
    ensures m.Keys == SetOf(ids)
    ensures forall i :: 0 <= i < |ids| ==> VerifyProductExists(ps, ids[i]) == Success(m[ids[i]])
  {
    map id | id in SetOf(ids) :: VerifyProductExists(ps, id).value
  }

  /** Finding: an upper-case spelling of an existing product's identifier is
      accepted by the single lookup but reported absent by the batch lookup. */
  lemma UppercaseIdReportedMissing(ps: seq<Keyed<Product>>, s: string)
    requires IsValid(s) && !Text.IsLower(s)
    requires Stored(ps, ObjectId(Text.Lower(s)))
    ensures VerifyProductExists(ps, s).Success?
    ensures VerifyProductsExist(ps, [s]) == Failure(ProductsNotFound({s}))
    ensures VerifyProductsExistFixed(ps, [s]).Success?
  {
    assert !FoundAsWritten(ps, [s][0]);
    assert MissingAsWritten(ps, [s]) == {s};
  }

  /** A concrete instance: one stored product, requested in upper case. */
  lemma UppercaseIdExample(p: Product)
    ensures var ps := [Keyed(ObjectId(seq(24, i => 'a')), p)];
            var s := seq(24, i => 'A');
            VerifyProductExists(ps, s) == Success(p) &&
            VerifyProductsExist(ps, [s]) == Failure(ProductsNotFound({s}))
  {
    var ps := [Keyed(ObjectId(seq(24, i => 'a')), p)];
    var s := seq(24, i => 'A');
    assert IsValid(s);
    assert Text.Lower(s) == seq(24, i => 'a');
    assert s[0] == 'A';
    assert ps[0].id == ObjectId(Text.Lower(s));
    UppercaseIdReportedMissing(ps, s);
  }

  /** `validate_pagination_params`: the limit is checked first, then the
      offset; valid parameters come back unchanged. */
  function ValidatePaginationParams(limit: int, offset: int): (r: Result<(int, int), Error>)
    ensures r.Success? <==> 1 <= limit <= Settings.MaxPageSize && offset >= 0
    ensures r.Success? ==> r.value == (limit, offset)
    ensures !(1 <= limit <= Settings.MaxPageSize) ==> r == Failure(LimitOutOfRange)
    ensures 1 <= limit <= Settings.MaxPageSize && offset < 0 ==> r == Failure(NegativeOffset)
  {
    if limit < 1 || limit > Settings.MaxPageSize then Failure(LimitOutOfRange)
    else if offset < 0 then Failure(NegativeOffset)
    else Success((limit, offset))
  }
}
