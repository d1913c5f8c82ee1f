/** The recommendation catalogue (app/crud/recommendations.py): the filtered
    listings, and the operations that create, patch, deactivate and delete
    a row. */
module CrudRecommendations {
  import opened Models
  import opened Store
  import Listing

  /** RecommendationCreate: the fields a new row starts with. */
  datatype RecommendationCreate = RecommendationCreate(
    title: string,
    description: string,
    category: Option<string>,
    forPositiveResult: bool,
    active: bool)

  predicate ValidRecommendationCreate(c: RecommendationCreate) {
    && 1 <= |c.title| <= 200
    && |c.description| >= 1
    && (c.category.Some? ==> |c.category.value| <= 100)
  }

  /** RecommendationUpdate: every field optional, `None` meaning "keep". */
  datatype RecommendationUpdate = RecommendationUpdate(
    title: Option<string>,
    description: Option<string>,
    category: Option<string>,
    forPositiveResult: Option<bool>,
    active: Option<bool>)

  // Queries

  /** Whether a row passes the two optional filters of the listing. */
  predicate PassesFilters(activeOnly: bool, forPositive: Option<bool>, r: Recommendation) {
    (!activeOnly || r.active) && (forPositive.None? || r.forPositiveResult == forPositive.value)
  }

  /** The filters of get_all_recommendations as one predicate. */
  function RecommendationFilter(activeOnly: bool, forPositive: Option<bool>): Recommendation -> bool {
    (r: Recommendation) => PassesFilters(activeOnly, forPositive, r)
  }

  /** The rank of `order_by(created_at.desc())`. */
  function ByNewest(r: Recommendation): int {
    -r.createdAt
  }

  /** get_all_recommendations: the rows passing the filters, newest first,
      then the page. */
  function GetAllRecommendations(recs: map<RecommendationId, Recommendation>, skip: nat, limit: nat, activeOnly: bool, forPositive: Option<bool>)
    : (rows: seq<Listing.Row<Recommendation>>)
    ensures Listing.IsPage(rows, Listing.Ordered(recs, RecommendationFilter(activeOnly, forPositive), ByNewest), skip, limit)
    ensures |rows| <= limit
    ensures forall row :: row in rows ==>
              && row.0 in recs && row.1 == recs[row.0]
              && (activeOnly ==> row.1.active)
              && (forPositive.Some? ==> row.1.forPositiveResult == forPositive.value)
    ensures forall i, j :: 0 <= i < j < |rows| ==> rows[i].1.createdAt >= rows[j].1.createdAt
    ensures skip == 0 && limit >= |recs| ==>
              forall id :: id in recs && PassesFilters(activeOnly, forPositive, recs[id]) ==> (id, recs[id]) in rows
  {
    var keep := RecommendationFilter(activeOnly, forPositive);
    Listing.QueryFacts(recs, keep, ByNewest, skip, limit);
    Listing.OrderedFacts(recs, keep, ByNewest);
    Listing.Query(recs, keep, ByNewest, skip, limit)
  }

  /** With neither filter set, the listing is not filtered at all. */
  lemma NoFilterKeepsEverything(recs: map<RecommendationId, Recommendation>)
    ensures forall id :: id in recs ==> (id, recs[id]) in GetAllRecommendations(recs, 0, |recs|, false, None)
  {
  }

  /** get_active_recommendations: the active rows of one polarity, with no
      order. */
  function ActiveRecommendations(recs: map<RecommendationId, Recommendation>, forPositive: bool): (ids: set<RecommendationId>)
    ensures ids <= recs.Keys
  {
    set id | id in recs && recs[id].active && recs[id].forPositiveResult == forPositive
  }

  /** The active rows of a polarity are exactly the rows the general listing
      returns with both filters set, and without paging. */
  lemma ActiveMatchesListing(recs: map<RecommendationId, Recommendation>, forPositive: bool)
    ensures forall id :: id in ActiveRecommendations(recs, forPositive) <==>
              (id in recs && (id, recs[id]) in GetAllRecommendations(recs, 0, |recs|, true, Some(forPositive)))
  {
  }

  // Row operations

  /** The row after a partial update: each supplied field replaces the
      stored one. */
  function Patched(rec: Recommendation, upd: RecommendationUpdate): Recommendation {
    Recommendation(
      if upd.title.Some? then upd.title.value else rec.title,
      if upd.description.Some? then upd.description.value else rec.description,
      if upd.category.Some? then upd.category else rec.category,
      if upd.forPositiveResult.Some? then upd.forPositiveResult.value else rec.forPositiveResult,
      if upd.active.Some? then upd.active.value else rec.active,
      rec.createdAt)
  }

  /** A patch changes only the fields it supplies; applying it twice is
      applying it once; and a category, once set, cannot be cleared. */
  lemma PatchFacts(rec: Recommendation, upd: RecommendationUpdate)
    ensures upd == RecommendationUpdate(None, None, None, None, None) ==> Patched(rec, upd) == rec
    ensures upd.title.None? ==> Patched(rec, upd).title == rec.title
    ensures upd.description.None? ==> Patched(rec, upd).description == rec.description
    ensures upd.category.None? ==> Patched(rec, upd).category == rec.category
    ensures upd.forPositiveResult.None? ==> Patched(rec, upd).forPositiveResult == rec.forPositiveResult
    ensures upd.active.None? ==> Patched(rec, upd).active == rec.active
    ensures Patched(rec, upd).createdAt == rec.createdAt
    ensures Patched(Patched(rec, upd), upd) == Patched(rec, upd)
    ensures rec.category.Some? ==> Patched(rec, upd).category.Some?
  {
  }

  method CreateRecommendation(db: Database, data: RecommendationCreate, now: Stamp) returns (id: RecommendationId)
    requires db.Valid() && ValidRecommendationCreate(data)
    modifies db`recommendations, db`nextRecommendationId
    ensures db.Valid()
    ensures id == old(db.nextRecommendationId) && id !in old(db.recommendations)
    ensures db.recommendations == old(db.recommendations)[id :=
              Recommendation(data.title, data.description, data.category, data.forPositiveResult, data.active, now)]
  {
    id := db.nextRecommendationId;
    db.recommendations := db.recommendations[id :=
      Recommendation(data.title, data.description, data.category, data.forPositiveResult, data.active, now)];
    db.nextRecommendationId := id + 1;
  }

  method UpdateRecommendation(db: Database, id: RecommendationId, upd: RecommendationUpdate) returns (r: Result<Recommendation, Error>)
    requires db.Valid()
    modifies db`recommendations
    ensures db.Valid()
    ensures id !in old(db.recommendations) ==> r == Err(NotFound(RecommendationMissing)) && db.recommendations == old(db.recommendations)
    ensures id in old(db.recommendations) ==>
              && r == Ok(Patched(old(db.recommendations[id]), upd))
              && db.recommendations == old(db.recommendations)[id := r.value]
  {
    if id !in db.recommendations {
      return Err(NotFound(RecommendationMissing));
    }
    var rec := db.recommendations[id];
    if upd.title.Some? {
      rec := rec.(title := upd.title.value);
    }
    if upd.description.Some? {
      rec := rec.(description := upd.description.value);
    }
    if upd.category.Some? {
      rec := rec.(category := upd.category);
    }
    if upd.forPositiveResult.Some? {
      rec := rec.(forPositiveResult := upd.forPositiveResult.value);
    }
    if upd.active.Some? {
      rec := rec.(active := upd.active.value);
    }
    db.recommendations := db.recommendations[id := rec];
    r := Ok(rec);
  }

  /** The catalogue after a soft delete of `id`. */
  function Deactivated(recs: map<RecommendationId, Recommendation>, id: RecommendationId): (m: map<RecommendationId, Recommendation>)
    requires id in recs
    ensures m.Keys == recs.Keys
  {
    recs[id := recs[id].(active := false)]
  }

  /** A soft delete only clears `active`, the row stays listed, it drops
      out of every active selection, and a second one changes nothing. */
  lemma DeactivateFacts(recs: map<RecommendationId, Recommendation>, id: RecommendationId, forPositive: bool)
    requires id in recs
    ensures Deactivated(recs, id)[id] == recs[id].(active := false)
    ensures forall other :: other in recs && other != id ==> Deactivated(recs, id)[other] == recs[other]
    ensures ActiveRecommendations(Deactivated(recs, id), forPositive) == ActiveRecommendations(recs, forPositive) - {id}
    ensures Deactivated(Deactivated(recs, id), id) == Deactivated(recs, id)
  {
  }

  method DeactivateRecommendation(db: Database, id: RecommendationId) returns (r: Result<Recommendation, Error>)
    requires db.Valid()
    modifies db`recommendations
    ensures db.Valid()
    ensures id !in old(db.recommendations) ==> r == Err(NotFound(RecommendationMissing)) && db.recommendations == old(db.recommendations)
    ensures id in old(db.recommendations) ==>
              && db.recommendations == Deactivated(old(db.recommendations), id)
              && r == Ok(db.recommendations[id])
  {
    if id !in db.recommendations {
      return Err(NotFound(RecommendationMissing));
    }
    var rec := db.recommendations[id].(active := false);
    db.recommendations := db.recommendations[id := rec];
    r := Ok(rec);
  }

  /** Whether some test result still links to the recommendation. */
  predicate Linked(links: set<(ResultId, RecommendationId)>, id: RecommendationId) {
    exists l :: l in links && l.1 == id
  }

  /** A hard delete. The relationship from a recommendation to its links
      has no delete cascade, so the session first nulls the links'
      NOT NULL recommendation_id and the commit fails: a linked row
      cannot be deleted and nothing changes. */
  method DeleteRecommendation(db: Database, id: RecommendationId) returns (r: Result<bool, Error>)
    requires db.Valid()
    modifies db`recommendations
    ensures db.Valid()
    ensures id !in old(db.recommendations) ==> r == Ok(false)
    ensures id in old(db.recommendations) && Linked(db.links, id) ==> r == Err(InternalError(IntegrityViolation))
    ensures id in old(db.recommendations) && !Linked(db.links, id) ==> r == Ok(true)
    ensures r == Ok(true) ==> db.recommendations == old(db.recommendations) - {id}
    ensures r != Ok(true) ==> db.recommendations == old(db.recommendations)
  {
    if id !in db.recommendations {
      return Ok(false);
    }
    if exists l :: l in db.links && l.1 == id {
      return Err(InternalError(IntegrityViolation));
    }
    db.recommendations := db.recommendations - {id};
    r := Ok(true);
  }
}
