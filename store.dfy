/**
 * The receipt store and the two handlers that use it: submitting a receipt
 * stores it under a fresh id, and a request path either lists every stored
 * receipt or asks for the points of one of them.
 */
module Store {
  import opened Wrappers
  import opened Text
  import opened Receipts
  import Points

  /** The route under which receipts are looked up. */
  const RoutePrefix := "/receipts/"
  /** The optional tail of a points request. */
  const PointsSuffix := "/points"

  // ---------------------------------------------------------------- request paths

  /** The id named by a request path: the route prefix and then one "/points" tail are cut off. */
  function ExtractId(path: string): (id: string)
    ensures |id| <= |path|
    ensures RoutePrefix <= path ==> |id| <= |path| - |RoutePrefix|
  {
    TrimSuffix(TrimPrefix(path, RoutePrefix), PointsSuffix)
  }

  /** The points path of an id names that id, whatever the id holds. */
  lemma PointsPathId(id: string)
    ensures ExtractId(RoutePrefix + id + PointsSuffix) == id
  {
    var path := RoutePrefix + id + PointsSuffix;
    assert path == RoutePrefix + (id + PointsSuffix);
    assert RoutePrefix <= path;
    var afterPrefix := TrimPrefix(path, RoutePrefix);
    assert afterPrefix == id + PointsSuffix;
    assert HasSuffix(afterPrefix, PointsSuffix) by {
      assert afterPrefix[|afterPrefix| - |PointsSuffix|..] == PointsSuffix;
    }
    assert afterPrefix[..|afterPrefix| - |PointsSuffix|] == id;
  }

  /** The bare path of an id names that id too, unless the id itself ends in "/points". */
  lemma BarePathId(id: string)
    ensures !HasSuffix(id, PointsSuffix) ==> ExtractId(RoutePrefix + id) == id
    ensures HasSuffix(id, PointsSuffix) ==> ExtractId(RoutePrefix + id) + PointsSuffix == id
  {
    var path := RoutePrefix + id;
    assert RoutePrefix <= path;
    assert TrimPrefix(path, RoutePrefix) == id;
  }

  /** "/receipts/abc/points" names "abc". */
  lemma PointsPathExample(path: string)
    requires path == "/receipts/abc/points"
    ensures ExtractId(path) == "abc"
  {
    PointsPathId("abc");
    assert RoutePrefix + "abc" + PointsSuffix == path;
  }

  /** "/receipts/abc" names "abc". */
  lemma BarePathExample(path: string)
    requires path == "/receipts/abc"
    ensures ExtractId(path) == "abc"
  {
    BarePathId("abc");
    assert RoutePrefix + "abc" == path;
  }

  /** "/receipts/" names no id, which selects the listing. */
  lemma RootPathExample(path: string)
    requires path == "/receipts/"
    ensures ExtractId(path) == ""
  {
    BarePathId("");
    assert RoutePrefix + "" == path;
  }

  /**
   * The extraction maps "/receipts//points" to no id as well. In the service this
   * path never reaches the handler: the request multiplexer's path cleaning
   * redirects it first, and that plumbing is outside the model.
   */
  lemma EmptyPointsPathExample(path: string)
    requires path == "/receipts//points"
    ensures ExtractId(path) == ""
  {
    PointsPathId("");
    assert RoutePrefix + "" + PointsSuffix == path;
  }

  // ---------------------------------------------------------------- submission

  /** Why a submission was turned away. */
  datatype Rejection = MissingRequiredFields

  /** The store after a submission: an accepted receipt is added under the fresh id, a rejected one changes nothing. */
  function Stored(m: map<string, Receipt>, candidate: Receipt, freshId: string): map<string, Receipt> {
    if HasRequiredFields(candidate) then m[freshId := candidate] else m
  }

  /** Every receipt in the store passed the required-field check. */
  predicate AllComplete(m: map<string, Receipt>) {
    forall id :: id in m ==> HasRequiredFields(m[id])
  }

  /** A rejected submission leaves the store exactly as it was. */
  lemma RejectedLeavesStore(m: map<string, Receipt>, candidate: Receipt, freshId: string)
    requires freshId !in m
    ensures !HasRequiredFields(candidate) <==> Stored(m, candidate, freshId) == m
  {
    if HasRequiredFields(candidate) {
      assert freshId in Stored(m, candidate, freshId);
    }
  }

  /** An accepted submission adds exactly one entry, finds the receipt under its id and keeps every other entry. */
  lemma AcceptedAddsOne(m: map<string, Receipt>, candidate: Receipt, freshId: string)
    requires freshId !in m && HasRequiredFields(candidate)
    ensures var m' := Stored(m, candidate, freshId);
      && freshId in m' && m'[freshId] == candidate
      && |m'| == |m| + 1
      && m'.Keys == m.Keys + {freshId}
      && forall id :: id in m ==> id in m' && m'[id] == m[id]
  {
    var m' := Stored(m, candidate, freshId);
    assert m'.Keys == m.Keys + {freshId};
  }

  /** Submissions keep the store free of incomplete receipts. */
  lemma StoredStaysComplete(m: map<string, Receipt>, candidate: Receipt, freshId: string)
    requires AllComplete(m)
    ensures AllComplete(Stored(m, candidate, freshId))
  {
  }

  // ---------------------------------------------------------------- queries

  /** What a points request answers. */
  datatype QueryResponse = Listing(entries: seq<(string, Receipt)>) | Scored(points: int) | NotFound

  /** `entries` lists every stored pair exactly once, in some order. */
  predicate Enumerates(entries: seq<(string, Receipt)>, m: map<string, Receipt>) {
    && (forall i :: 0 <= i < |entries| ==> entries[i].0 in m && m[entries[i].0] == entries[i].1)
    && (forall i, j :: 0 <= i < j < |entries| ==> entries[i].0 != entries[j].0)
    && (forall id :: id in m ==> exists i :: 0 <= i < |entries| && entries[i].0 == id)
  }

  /** The answers a path may get: the listing, the score of the named receipt, or not-found. */
  predicate Answers(m: map<string, Receipt>, path: string, response: QueryResponse) {
    var id := ExtractId(path);
    if id == "" then response.Listing? && Enumerates(response.entries, m)
    else if id in m then response == Scored(Points.Points(m[id]))
    else response == NotFound
  }

  /** A listing has exactly one entry per stored receipt. */
  lemma {:induction false} EnumeratesCount(entries: seq<(string, Receipt)>, m: map<string, Receipt>)
    requires Enumerates(entries, m)
    ensures |entries| == |m|
    decreases |entries|
  {
    if entries == [] {
      assert m.Keys == {};
    } else {
      var last := entries[|entries| - 1];
      var init := entries[..|entries| - 1];
      var m' := m - {last.0};
      assert Enumerates(init, m') by {
        forall id | id in m'
          ensures exists i :: 0 <= i < |init| && init[i].0 == id
        {
          var i :| 0 <= i < |entries| && entries[i].0 == id;
          assert i != |entries| - 1;
          assert init[i].0 == id;
        }
      }
      EnumeratesCount(init, m');
      assert m'.Keys == m.Keys - {last.0};
    }
  }

  /** The points path of a stored id is answered with that receipt's score. */
  lemma ScoredByPointsPath(m: map<string, Receipt>, id: string, response: QueryResponse)
    requires id != "" && id in m
    ensures Answers(m, RoutePrefix + id + PointsSuffix, response) <==> response == Scored(Points.Points(m[id]))
  {
    PointsPathId(id);
  }

  /** The points path of a non-empty id that is not stored is answered with not-found. */
  lemma NotFoundByPointsPath(m: map<string, Receipt>, id: string, response: QueryResponse)
    requires id != "" && id !in m
    ensures Answers(m, RoutePrefix + id + PointsSuffix, response) <==> response == NotFound
  {
    PointsPathId(id);
  }

  /** The route root is answered with a listing of the whole store. */
  lemma ListedByRoot(m: map<string, Receipt>, response: QueryResponse)
    ensures Answers(m, RoutePrefix, response) <==> response.Listing? && Enumerates(response.entries, m)
  {
    RootPathExample(RoutePrefix);
  }

  // ---------------------------------------------------------------- the store

  /** The process-wide map from receipt id to the receipt submitted under it. */
  class ReceiptStore {
    var receipts: map<string, Receipt>

    /** Only complete receipts are ever stored. */
    predicate Valid()
      reads this
    {
      AllComplete(receipts)
    }

    /** The store starts empty. */
    constructor ()
      ensures receipts == map[] && Valid()
    {
      receipts := map[];
    }

    /**
     * Handles a decoded submission: an incomplete receipt is rejected and
     * nothing is stored; a complete one is stored under `freshId`, which is
     * returned. The id generator is outside the model: `freshId` is any
     * non-empty id not yet in use.
     */
    method Process(candidate: Receipt, freshId: string) returns (outcome: Result<string, Rejection>)
      requires Valid() && freshId != "" && freshId !in receipts
      modifies this
      ensures Valid()
      ensures receipts == Stored(old(receipts), candidate, freshId)
      ensures outcome.Failure? <==> !HasRequiredFields(candidate)
      ensures outcome.Success? ==> outcome.value == freshId && receipts[freshId] == candidate
    {
      if candidate.retailer == "" || candidate.purchaseDate == "" || candidate.purchaseTime == ""
         || |candidate.items| == 0 || candidate.total == "" {
        return Failure(MissingRequiredFields);
      }
      receipts := receipts[freshId := candidate];
      return Success(freshId);
    }

    /** Looks an id up: the stored receipt, or nothing when the id is unknown. */
    function Lookup(id: string): (r: Option<Receipt>)
      reads this
      ensures r.Some? <==> id in receipts
      ensures r.Some? ==> receipts[id] == r.value
    {
      if id in receipts then Some(receipts[id]) else None
    }

    /** Collects every stored (id, receipt) pair, one at a time, in an order the model leaves open. */
    method List() returns (entries: seq<(string, Receipt)>)
      ensures Enumerates(entries, receipts)
      ensures |entries| == |receipts|
    {
      entries := [];
      var remaining := receipts.Keys;
      while remaining != {}
        invariant remaining <= receipts.Keys
        invariant forall i :: 0 <= i < |entries| ==> entries[i].0 in receipts && entries[i].0 !in remaining
        invariant forall i :: 0 <= i < |entries| ==> receipts[entries[i].0] == entries[i].1
        invariant forall i, j :: 0 <= i < j < |entries| ==> entries[i].0 != entries[j].0
        invariant forall id :: id in receipts && id !in remaining ==> exists i :: 0 <= i < |entries| && entries[i].0 == id
        decreases |remaining|
      {
        var id :| id in remaining;
        var listed := entries;
        entries := entries + [(id, receipts[id])];
        remaining := remaining - {id};
        forall other | other in receipts && other !in remaining
          ensures exists i :: 0 <= i < |entries| && entries[i].0 == other
        {
          if other == id {
            assert entries[|entries| - 1].0 == other;
          } else {
            var i :| 0 <= i < |listed| && listed[i].0 == other;
            assert entries[i].0 == other;
          }
        }
      }
      EnumeratesCount(entries, receipts);
    }

    /** Answers a points request for `path`. */
    method Query(path: string) returns (response: QueryResponse)
      ensures Answers(receipts, path, response)
    {
      var id := TrimPrefix(path, RoutePrefix);
      id := TrimSuffix(id, PointsSuffix);
      if id == "" {
        var entries := List();
        return Listing(entries);
      }
      var found := Lookup(id);
      if found.None? {
        return NotFound;
      }
      var points := Points.CalculatePoints(found.value);
      return Scored(points);
    }
  }
}
