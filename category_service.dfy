/**
 * `FoodCategoryService`: the add / delete / list / update / get workflow over the category
 * table. The repository the service talks to is modelled by two fields of the service
 * object itself: the table of saved rows and the next id the table hands out.
 */
module CategoryService {
  import opened CaseFold
  import opened Decimal
  import opened Optional
  import opened Categories

  /** The message of the not-found error that get-by-id raises for `categoryId`. */
  function NotFoundWithId(categoryId: int): (msg: string)
    ensures |msg| > 32 && msg[..32] == "Food Category not found with id "
  {
    "Food Category not found with id " + IntToString(categoryId)
  }

  /** Get-by-id messages tell ids apart: the id can be read back from the message. */
  lemma NotFoundWithIdInjective(m: int, n: int)
    ensures NotFoundWithId(m) == NotFoundWithId(n) ==> m == n
  {
    if NotFoundWithId(m) == NotFoundWithId(n) {
      assert NotFoundWithId(m)[32..] == IntToString(m);
      assert NotFoundWithId(n)[32..] == IntToString(n);
      IntToStringInjective(m, n);
    }
  }

  class FoodCategoryService {
    /** The saved rows, by id. */
    var table: Table
    /** The id the next inserted row receives. */
    var nextId: int

    /** The repository's invariant: rows carry their own key, and every key was handed
        out before `nextId`. */
    predicate Valid()
      reads this
    {
      FIRST_ID <= nextId && WellKeyed(table) && KeysBelow(table, nextId)
    }

    /** A service over an empty table. */
    constructor ()
      ensures Valid() && table == map[] && nextId == FIRST_ID
    {
      table := map[];
      nextId := FIRST_ID;
    }

    /** `save`: an entity without an id is inserted under a fresh id; an entity with the
        id of a saved row replaces that row. Either way the saved entity is returned. */
    method Save(entity: FoodCategory) returns (saved: FoodCategory)
      requires Valid()
      requires entity.categoryId.Some? ==> entity.categoryId.value in table
      modifies this
      ensures Valid()
      ensures entity.categoryId.None? ==>
                && saved == entity.(categoryId := Some(old(nextId)))
                && old(nextId) !in old(table)
                && table == old(table)[old(nextId) := saved]
                && nextId == old(nextId) + 1
      ensures entity.categoryId.Some? ==>
                && saved == entity
                && table == old(table)[entity.categoryId.value := entity]
                && nextId == old(nextId)
    {
      if entity.categoryId.None? {
        saved := entity.(categoryId := Some(nextId));
        table := table[nextId := saved];
        nextId := nextId + 1;
      } else {
        saved := entity;
        table := table[entity.categoryId.value := entity];
      }
    }

    /** `addFoodCategory`: rejects a name the restaurant already has (case ignored) without
        writing anything; otherwise saves one new row and answers with it. */
    method AddFoodCategory(request: FoodCategoryRequest) returns (r: Outcome<FoodCategoryResponse>)
      requires Valid()
      modifies this
      ensures Valid()
      ensures old(ExistsByRestaurantIdAndCategoryNameIgnoreCase(table, request.restaurantId, request.categoryName)) ==>
                && r == AlreadyExists(CATEGORY_ALREADY_EXISTS)
                && table == old(table) && nextId == old(nextId)
      ensures !old(ExistsByRestaurantIdAndCategoryNameIgnoreCase(table, request.restaurantId, request.categoryName)) ==>
                && old(nextId) !in old(table)
                && table == old(table)[old(nextId) := FoodCategory(Some(old(nextId)), request.restaurantId, request.categoryName)]
                && nextId == old(nextId) + 1
                && r == Ok(FoodCategoryResponse(Some(old(nextId)), request.restaurantId, request.categoryName))
                && ExistsByRestaurantIdAndCategoryNameIgnoreCase(table, request.restaurantId, request.categoryName)
      ensures old(UniqueNamesPerRestaurant(table)) ==> UniqueNamesPerRestaurant(table)
    {
      var alreadyThere := ExistsByRestaurantIdAndCategoryNameIgnoreCase(table, request.restaurantId, request.categoryName);
      if alreadyThere {
        return AlreadyExists(CATEGORY_ALREADY_EXISTS);
      }
      ghost var before := table;
      var foodCategory := ConvertToFoodCategoryEntity(request);
      var savedFoodCategory := Save(foodCategory);
      r := Ok(ConvertToFoodCategoryResponse(savedFoodCategory));
      SavedRequestResponse(request, old(nextId));
      InsertedIsFound(before, old(nextId), request);
      if UniqueNamesPerRestaurant(before) {
        InsertKeepsUniqueNames(before, old(nextId), request);
      }
    }

    /** `deleteFoodCategory`: an absent id is NotFound and changes nothing; a present id
        removes exactly that row. */
    method DeleteFoodCategory(categoryId: int) returns (r: Outcome<()>)
      requires Valid()
      modifies this
      ensures Valid() && nextId == old(nextId)
      ensures categoryId !in old(table) ==> r == NotFound(CATEGORY_NOT_FOUND) && table == old(table)
      ensures categoryId in old(table) ==> r == Ok(()) && table == old(table) - {categoryId}
      ensures categoryId !in table
      ensures old(UniqueNamesPerRestaurant(table)) ==> UniqueNamesPerRestaurant(table)
    {
      if categoryId !in table {
        return NotFound(CATEGORY_NOT_FOUND);
      }
      table := table - {categoryId};
      r := Ok(());
    }

    /** `getAllCategoriesByRestaurantId`: one response per row of the restaurant, in the
        order the repository lists them (ascending id), and the table is left alone. */
    method GetAllCategoriesByRestaurantId(restaurantId: int) returns (responseList: seq<FoodCategoryResponse>)
      requires Valid()
      ensures var categories := FindByRestaurantId(table, restaurantId, nextId);
              |responseList| == |categories|
              && forall k :: 0 <= k < |categories| ==> responseList[k] == ConvertToFoodCategoryResponse(categories[k])
      ensures forall k :: 0 <= k < |responseList| ==>
                && responseList[k].restaurantId == restaurantId
                && responseList[k].categoryId.Some?
                && responseList[k].categoryId.value in table
                && ConvertToFoodCategoryResponse(table[responseList[k].categoryId.value]) == responseList[k]
      ensures forall id :: id in table && table[id].restaurantId == restaurantId ==>
                ConvertToFoodCategoryResponse(table[id]) in responseList
      ensures forall j, k :: 0 <= j < k < |responseList| ==>
                responseList[j].categoryId.Some? && responseList[k].categoryId.Some?
                && responseList[j].categoryId.value < responseList[k].categoryId.value
    {
      var categories := FindByRestaurantId(table, restaurantId, nextId);
      FindByRestaurantIdSpec(table, restaurantId, nextId);
      responseList := [];
      var i := 0;
      while i < |categories|
        invariant 0 <= i <= |categories|
        invariant |responseList| == i
        invariant forall k :: 0 <= k < i ==> responseList[k] == ConvertToFoodCategoryResponse(categories[k])
      {
        var response := ConvertToFoodCategoryResponse(categories[i]);
        responseList := responseList + [response];
        i := i + 1;
      }
      forall id | id in table && table[id].restaurantId == restaurantId
        ensures ConvertToFoodCategoryResponse(table[id]) in responseList
      {
        var k :| 0 <= k < |categories| && categories[k] == table[id];
        assert responseList[k] == ConvertToFoodCategoryResponse(table[id]);
      }
      assert forall k :: 0 <= k < |categories| ==> RowOf(table, restaurantId, nextId, categories[k]);
      assert IdsIncreasing(categories);
    }

    /** `updateCategoryName`: an absent id is NotFound and changes nothing; a present id
        has its name replaced, with no uniqueness check, and the renamed row is returned. */
    method UpdateCategoryName(categoryId: int, newCategoryName: string) returns (r: Outcome<FoodCategoryResponse>)
      requires Valid()
      modifies this
      ensures Valid() && nextId == old(nextId)
      ensures categoryId !in old(table) ==> r == NotFound(CATEGORY_NOT_FOUND) && table == old(table)
      ensures categoryId in old(table) ==>
                && table == Renamed(old(table), categoryId, newCategoryName)
                && r == Ok(FoodCategoryResponse(Some(categoryId), old(table)[categoryId].restaurantId, newCategoryName))
    {
      if categoryId !in table {
        return NotFound(CATEGORY_NOT_FOUND);
      }
      var existingCategory := table[categoryId];
      existingCategory := existingCategory.(categoryName := newCategoryName);
      var updatedCategory := Save(existingCategory);
      r := Ok(ConvertToFoodCategoryResponse(updatedCategory));
    }

    /** `getFoodCategoryById`: an absent id is NotFound with a message naming the id; a
        present id answers with the row's id, name and restaurant. */
    method GetFoodCategoryById(categoryId: int) returns (r: Outcome<FoodCategoryResponse>)
      requires Valid()
      ensures categoryId !in table ==> r == NotFound(NotFoundWithId(categoryId))
      ensures categoryId in table ==>
                && r.Ok?
                && r.value.categoryId == Some(categoryId)
                && r.value.categoryName == table[categoryId].categoryName
                && r.value.restaurantId == table[categoryId].restaurantId
                && r.value == ConvertToFoodCategoryResponse(table[categoryId])
    {
      if categoryId !in table {
        return NotFound(NotFoundWithId(categoryId));
      }
      var category := table[categoryId];
      var response := FoodCategoryResponse(category.categoryId, category.restaurantId, category.categoryName);
      r := Ok(response);
    }
  }

  /** A run of the whole workflow on a fresh service: add "Drinks" to restaurant 1, try to
      add "drinks" again, list the restaurant, rename the category to "Beverages", then
      delete it twice. */
  method Walkthrough() returns (first: Outcome<FoodCategoryResponse>, duplicate: Outcome<FoodCategoryResponse>,
                                listed: seq<FoodCategoryResponse>, renamed: Outcome<FoodCategoryResponse>,
                                deleted: Outcome<()>, deletedAgain: Outcome<()>)
    ensures first == Ok(FoodCategoryResponse(Some(FIRST_ID), 1, "Drinks"))
    ensures duplicate == AlreadyExists(CATEGORY_ALREADY_EXISTS)
    ensures listed == [FoodCategoryResponse(Some(FIRST_ID), 1, "Drinks")]
    ensures renamed == Ok(FoodCategoryResponse(Some(FIRST_ID), 1, "Beverages"))
    ensures deleted == Ok(())
    ensures deletedAgain == NotFound(CATEGORY_NOT_FOUND)
  {
    var service := new FoodCategoryService();
    first := service.AddFoodCategory(FoodCategoryRequest(1, "Drinks"));
    assert ToLower("Drinks") == "drinks";
    assert ToLower("drinks") == "drinks";
    assert FIRST_ID in service.table && EqualsIgnoreCase(service.table[FIRST_ID].categoryName, "drinks");
    duplicate := service.AddFoodCategory(FoodCategoryRequest(1, "drinks"));
    listed := service.GetAllCategoriesByRestaurantId(1);
    renamed := service.UpdateCategoryName(FIRST_ID, "Beverages");
    deleted := service.DeleteFoodCategory(FIRST_ID);
    deletedAgain := service.DeleteFoodCategory(FIRST_ID);
  }
}
