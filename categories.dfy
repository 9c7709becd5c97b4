/**
 * The value layer of the Restaurants food-category workflow: the entity, its request and
 * response records, the two conversions between them, the outcomes a service call can
 * have, the category table that stands in for the JPA repository, the queries the service
 * asks of it, and the per-restaurant uniqueness invariant on names.
 */
module Categories {
  import opened CaseFold
  import opened Optional

  /** The outcome of one service call: a value, or one of the two exceptions the service
      throws (`ResourceNotFoundException`, `AlreadyExistsException`) with its message. */
  datatype Outcome<T> = Ok(value: T) | NotFound(msg: string) | AlreadyExists(msg: string)

  /** `ConstantMessage.CATEGORY_ALREADY_EXISTS` (assumed text). */
  const CATEGORY_ALREADY_EXISTS: string := "Category already exists"
  /** `ConstantMessage.CATEGORY_NOT_FOUND` (assumed text). */
  const CATEGORY_NOT_FOUND: string := "Food category not found"

  /** The `FoodCategory` entity. Its id is null (`None`) until the repository saves it. */
  datatype FoodCategory = FoodCategory(categoryId: Option<int>, restaurantId: int, categoryName: string)

  /** The body of an add request. */
  datatype FoodCategoryRequest = FoodCategoryRequest(restaurantId: int, categoryName: string)

  /** What the service hands back for a category. */
  datatype FoodCategoryResponse = FoodCategoryResponse(categoryId: Option<int>, restaurantId: int, categoryName: string)

  /** The category table: saved rows by id. */
  type Table = map<int, FoodCategory>

  /** The first id the repository hands out. */
  const FIRST_ID: int := 1

  /** Request to entity: the request's two fields are copied, the id is left unset. */
  function ConvertToFoodCategoryEntity(request: FoodCategoryRequest): (e: FoodCategory)
    ensures e.categoryId == None
    ensures e.restaurantId == request.restaurantId && e.categoryName == request.categoryName
  {
    FoodCategory(None, request.restaurantId, request.categoryName)
  }

  /** Entity to response: all three fields are copied. */
  function ConvertToFoodCategoryResponse(e: FoodCategory): (r: FoodCategoryResponse)
    ensures r.categoryId == e.categoryId
    ensures r.restaurantId == e.restaurantId && r.categoryName == e.categoryName
  {
    FoodCategoryResponse(e.categoryId, e.restaurantId, e.categoryName)
  }

  /** No information is lost between an entity and its response. */
  lemma ConvertToFoodCategoryResponseInjective(a: FoodCategory, b: FoodCategory)
    ensures ConvertToFoodCategoryResponse(a) == ConvertToFoodCategoryResponse(b) <==> a == b
  {
  }

  /** The row saved for a request under id `id` answers with the request's two fields
      and that id. */
  lemma SavedRequestResponse(request: FoodCategoryRequest, id: int)
    ensures var saved := ConvertToFoodCategoryEntity(request).(categoryId := Some(id));
            ConvertToFoodCategoryResponse(saved)
              == FoodCategoryResponse(Some(id), request.restaurantId, request.categoryName)
  {
  }

  // ---------------------------------------------------------------------------------
  // The table's own invariant, kept by the repository.

  /** Every saved row carries its own key as its id. */
  predicate WellKeyed(t: Table)
  {
    forall id :: id in t ==> t[id].categoryId == Some(id)
  }

  /** Every key lies in `FIRST_ID .. bound - 1`. */
  predicate KeysBelow(t: Table, bound: int)
  {
    forall id :: id in t ==> FIRST_ID <= id < bound
  }

  // ---------------------------------------------------------------------------------
  // Repository queries.

  /** `existsByRestaurantIdAndCategoryNameIgnoreCase`: some row of the restaurant has the
      name, case ignored. */
  predicate ExistsByRestaurantIdAndCategoryNameIgnoreCase(t: Table, restaurantId: int, name: string)
    ensures ExistsByRestaurantIdAndCategoryNameIgnoreCase(t, restaurantId, name) <==>
              ToLower(name) in (set id | id in t && t[id].restaurantId == restaurantId :: ToLower(t[id].categoryName))
    ensures t == map[] ==> !ExistsByRestaurantIdAndCategoryNameIgnoreCase(t, restaurantId, name)
  {
    exists id :: id in t && t[id].restaurantId == restaurantId && EqualsIgnoreCase(t[id].categoryName, name)
  }

  /** `findByRestaurantId`: the rows of one restaurant whose ids are below `bound`, in
      ascending id order (the order in which they were inserted). */
  function FindByRestaurantId(t: Table, restaurantId: int, bound: int): (rows: seq<FoodCategory>)
    ensures forall k :: 0 <= k < |rows| ==> rows[k].restaurantId == restaurantId && rows[k] in t.Values
    ensures bound <= FIRST_ID ==> rows == []
    decreases bound - FIRST_ID
  {
    if bound <= FIRST_ID then []
    else
      var id := bound - 1;
      FindByRestaurantId(t, restaurantId, id)
        + (if id in t && t[id].restaurantId == restaurantId then [t[id]] else [])
  }

  /** `row` is a saved row of restaurant `restaurantId` with an id below `bound`. */
  predicate RowOf(t: Table, restaurantId: int, bound: int, row: FoodCategory)
  {
    && row.restaurantId == restaurantId
    && row.categoryId.Some?
    && FIRST_ID <= row.categoryId.value < bound
    && row.categoryId.value in t
    && t[row.categoryId.value] == row
  }

  /** Every row has an id, and the ids strictly increase along the sequence. */
  predicate IdsIncreasing(rows: seq<FoodCategory>)
  {
    forall j, k :: 0 <= j < k < |rows| ==>
      rows[j].categoryId.Some? && rows[k].categoryId.Some?
      && rows[j].categoryId.value < rows[k].categoryId.value
  }

  /** `findByRestaurantId` returns exactly the rows of the restaurant with ids in
      `FIRST_ID .. bound - 1`, each once, ordered by id. */
  lemma {:induction false} FindByRestaurantIdSpec(t: Table, restaurantId: int, bound: int)
    requires WellKeyed(t)
    ensures forall k :: 0 <= k < |FindByRestaurantId(t, restaurantId, bound)| ==>
              RowOf(t, restaurantId, bound, FindByRestaurantId(t, restaurantId, bound)[k])
    ensures forall id :: id in t && FIRST_ID <= id < bound && t[id].restaurantId == restaurantId ==>
              t[id] in FindByRestaurantId(t, restaurantId, bound)
    ensures IdsIncreasing(FindByRestaurantId(t, restaurantId, bound))
    decreases bound - FIRST_ID
  {
    if bound > FIRST_ID {
      var id := bound - 1;
      var prefix := FindByRestaurantId(t, restaurantId, id);
      var rows := FindByRestaurantId(t, restaurantId, bound);
      FindByRestaurantIdSpec(t, restaurantId, id);
      if id in t && t[id].restaurantId == restaurantId {
        assert rows == prefix + [t[id]];
        assert t[id].categoryId == Some(id);
        assert forall k :: 0 <= k < |prefix| ==> rows[k] == prefix[k];
      } else {
        assert rows == prefix;
      }
    }
  }

  // ---------------------------------------------------------------------------------
  // The uniqueness invariant: no two rows of one restaurant have names equal up to case.

  predicate UniqueNamesPerRestaurant(t: Table)
  {
    forall i, j :: i in t && j in t && i != j && t[i].restaurantId == t[j].restaurantId ==>
      !EqualsIgnoreCase(t[i].categoryName, t[j].categoryName)
  }

  /** Inserting a row for `request` under an unused id keeps names unique exactly when no
      row of the restaurant already has the name up to case, which is the test add makes
      before it writes. */
  lemma {:induction false} InsertKeepsUniqueNames(t: Table, id: int, request: FoodCategoryRequest)
    requires UniqueNamesPerRestaurant(t)
    requires id !in t
    ensures var row := ConvertToFoodCategoryEntity(request).(categoryId := Some(id));
            UniqueNamesPerRestaurant(t[id := row]) <==>
              !ExistsByRestaurantIdAndCategoryNameIgnoreCase(t, request.restaurantId, request.categoryName)
  {
    var row := ConvertToFoodCategoryEntity(request).(categoryId := Some(id));
    var t' := t[id := row];
    if ExistsByRestaurantIdAndCategoryNameIgnoreCase(t, request.restaurantId, request.categoryName) {
      var j :| j in t && t[j].restaurantId == request.restaurantId
               && EqualsIgnoreCase(t[j].categoryName, request.categoryName);
      assert j in t' && id in t' && t'[j] == t[j] && t'[id] == row;
    }
  }

  /** After a row is inserted for `request`, the existence query for its restaurant and
      name answers yes. */
  lemma InsertedIsFound(t: Table, id: int, request: FoodCategoryRequest)
    ensures var row := ConvertToFoodCategoryEntity(request).(categoryId := Some(id));
            ExistsByRestaurantIdAndCategoryNameIgnoreCase(t[id := row], request.restaurantId, request.categoryName)
  {
    var row := ConvertToFoodCategoryEntity(request).(categoryId := Some(id));
    assert id in t[id := row] && t[id := row][id] == row;
  }

  /** The table after the row `id` is renamed; nothing else changes. */
  function Renamed(t: Table, id: int, newName: string): (t': Table)
    requires id in t
    ensures t'.Keys == t.Keys
    ensures forall other :: other in t && other != id ==> t'[other] == t[other]
    ensures t'[id].categoryId == t[id].categoryId && t'[id].restaurantId == t[id].restaurantId
    ensures t'[id].categoryName == newName
  {
    t[id := t[id].(categoryName := newName)]
  }

  /** Renaming keeps names unique exactly when no OTHER row of the same restaurant has the
      new name up to case. Update never makes that test. */
  lemma {:induction false} RenameKeepsUniqueNames(t: Table, id: int, newName: string)
    requires UniqueNamesPerRestaurant(t)
    requires id in t
    ensures UniqueNamesPerRestaurant(Renamed(t, id, newName)) <==>
              forall other :: other in t && other != id && t[other].restaurantId == t[id].restaurantId ==>
                !EqualsIgnoreCase(t[other].categoryName, newName)
  {
    var t' := Renamed(t, id, newName);
    if !UniqueNamesPerRestaurant(t') {
      var i, j :| i in t' && j in t' && i != j && t'[i].restaurantId == t'[j].restaurantId
                  && EqualsIgnoreCase(t'[i].categoryName, t'[j].categoryName);
      if i == id {
        assert j != id && EqualsIgnoreCase(t[j].categoryName, newName);
      } else if j == id {
        assert EqualsIgnoreCase(t[i].categoryName, newName);
      } else {
        assert false;
      }
    } else {
      forall other | other in t && other != id && t[other].restaurantId == t[id].restaurantId
        ensures !EqualsIgnoreCase(t[other].categoryName, newName)
      {
        assert other in t' && id in t' && t'[other] == t[other];
      }
    }
  }

  /** Because update does not re-check, it can break the invariant: a restaurant with
      "Drinks" and "Snacks" ends up with two rows named alike once "Snacks" is renamed
      to "DRINKS". */
  lemma RenameCanBreakUniqueNames()
    ensures var t := map[1 := FoodCategory(Some(1), 7, "Drinks"), 2 := FoodCategory(Some(2), 7, "Snacks")];
            UniqueNamesPerRestaurant(t) && !UniqueNamesPerRestaurant(Renamed(t, 2, "DRINKS"))
  {
    var t := map[1 := FoodCategory(Some(1), 7, "Drinks"), 2 := FoodCategory(Some(2), 7, "Snacks")];
    assert ToLower("Drinks") == "drinks";
    assert ToLower("Snacks") == "snacks";
    assert ToLower("DRINKS") == "drinks";
    assert "drinks" != "snacks" by { assert "drinks"[0] != "snacks"[0]; }
    assert UniqueNamesPerRestaurant(t);
    var t' := Renamed(t, 2, "DRINKS");
    assert 1 in t' && 2 in t' && EqualsIgnoreCase(t'[1].categoryName, t'[2].categoryName);
  }
}
