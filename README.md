# Food-category workflow and user DTO conversions, in Dafny

This project models two parts of a food-delivery backend (Orders, Restaurants and Users
microservices). It proves properties of both.

**The Restaurants food-category workflow** (`FoodCategoryService`). A category belongs to one
restaurant and has a name. The service can add, delete, list, rename and fetch categories.
Add refuses a name the restaurant already has, ignoring case. The JPA repository behind the
service is modelled by two fields of the service object:

- `table`, a `map<int, FoodCategory>` of saved rows by id;
- `nextId`, the id the next inserted row receives. Ids start at 1.

The repository's queries are functions over that table:

- `existsById` / `findById` are `id in table` and `table[id]`;
- `existsByRestaurantIdAndCategoryNameIgnoreCase` is the predicate
  `Categories.ExistsByRestaurantIdAndCategoryNameIgnoreCase`;
- `findByRestaurantId` is `Categories.FindByRestaurantId`, which lists a restaurant's rows by
  ascending id;
- `save` is the method `FoodCategoryService.Save`;
- `deleteById` is removal of the key.

Each operation is a method. Its contract gives the new table and the result exactly, error
paths included. The outcomes are `Ok(value)`, `NotFound(msg)` and `AlreadyExists(msg)`, named
after the two exceptions the service throws.

The invariant that matters is `UniqueNamesPerRestaurant`: no two rows of one restaurant have
names that are equal ignoring case. The model proves these facts about it:

- add keeps it;
- delete keeps it;
- inserting a row keeps it exactly when the existence query that add runs first answers no;
- renaming keeps it exactly when no other row of the restaurant has the new name;
- update does not make that test, so it can break the invariant (`RenameCanBreakUniqueNames`
  gives a concrete table).

Case is ignored by ASCII folding (module `CaseFold`). Get-by-id's message ends with the id in
decimal (module `Decimal`). That rendering is proved to read back to the same id, so
different ids give different messages.

**The Users DTO conversion layer** (`DtoConversion` in the Users service). It has four total
functions: user request to entity, entity to response, and the same two for addresses. Every
Java field may be null, so every field is an `Option`. The contracts say field by field what
is copied. User to response drops the role. Address to response drops the id. User request to
entity leaves the id and wallet at a new `User`'s values. Lemmas prove the round trips and
say exactly what each conversion forgets. Because these are Dafny functions on values, they
are total and cannot change their argument.

Files: `optional.dfy` (the `Option` type), `case_fold.dfy`, `decimal.dfy`, `categories.dfy`
(entities, conversions, repository queries, the invariant and lemmas about it),
`category_service.dfy` (the service class and a full walkthrough),
`user_dto_conversion.dfy`.

## Model

| member | source | states |
|---|---|---|
| `CaseFold.LowerChar` | Restaurants/src/main/java/com/restaurants/service/FoodCategoryService.java:44 | upper-case ASCII letters move to lower case; every other character is kept; the result is never an upper-case letter |
| `CaseFold.ToLower` | Restaurants/src/main/java/com/restaurants/service/FoodCategoryService.java:44 | folding keeps the length and folds each position on its own |
| `CaseFold.LowerCharEqual` | Restaurants/src/main/java/com/restaurants/service/FoodCategoryService.java:44 | two characters fold alike exactly when they are equal or are the two cases of one letter |
| `CaseFold.EqualsIgnoreCase` | Restaurants/src/main/java/com/restaurants/service/FoodCategoryService.java:44 | two names are equal ignoring case when they are equal after `ToLower`, which holds exactly when they have the same length and agree position by position up to case |
| `CaseFold.ToLowerIdempotent` | Restaurants/src/main/java/com/restaurants/service/FoodCategoryService.java:44 | folding a folded name changes nothing |
| `CaseFold.EqualsIgnoreCaseIsEquivalence` | Restaurants/src/main/java/com/restaurants/service/FoodCategoryService.java:44 | ignoring case is reflexive, symmetric and transitive |
| `CaseFold.EqualsIgnoreCaseToLower` | Restaurants/src/main/java/com/restaurants/service/FoodCategoryService.java:44 | every name matches its own lower-case form |
| `Decimal.NatToString` | Restaurants/src/main/java/com/restaurants/service/FoodCategoryService.java:132 | the rendering of a number is a non-empty string of digits with no leading zero, and "0" for zero |
| `Decimal.IntToString` | Restaurants/src/main/java/com/restaurants/service/FoodCategoryService.java:132 | a negative id renders as a leading '-' followed by at least one character, all of them digits; any other id renders as digits only |
| `Decimal.NatToStringRoundTrip` | Restaurants/src/main/java/com/restaurants/service/FoodCategoryService.java:132 | reading the digits back gives the number |
| `Decimal.IntToStringRoundTrip` | Restaurants/src/main/java/com/restaurants/service/FoodCategoryService.java:132 | parsing the rendering of an id, sign included, gives the id |
| `Decimal.IntToStringInjective` | Restaurants/src/main/java/com/restaurants/service/FoodCategoryService.java:132 | different ids render different texts |
| `Categories.ConvertToFoodCategoryEntity` | Restaurants/src/main/java/com/restaurants/service/FoodCategoryService.java:56 | the entity carries the request's restaurant id and name, and no id until it is saved |
| `Categories.ConvertToFoodCategoryResponse` | Restaurants/src/main/java/com/restaurants/service/FoodCategoryService.java:135-138 | the response carries the entity's id, restaurant id and name |
| `Categories.ConvertToFoodCategoryResponseInjective` | Restaurants/src/main/java/com/restaurants/service/FoodCategoryService.java:135-138 | two entities give the same response only if they are equal |
| `Categories.SavedRequestResponse` | Restaurants/src/main/java/com/restaurants/service/FoodCategoryService.java:56-59 | a request saved under an id answers with that id and the request's restaurant id and name |
| `Categories.ExistsByRestaurantIdAndCategoryNameIgnoreCase` | Restaurants/src/main/java/com/restaurants/service/FoodCategoryService.java:44-47 | the existence query answers yes exactly when some row of the restaurant has the name after ASCII folding, that is, when the folded name is among the restaurant's folded names; on an empty table it answers no |
| `Categories.FindByRestaurantId` | Restaurants/src/main/java/com/restaurants/service/FoodCategoryService.java:86 | the restaurant query, defined as the restaurant's rows by ascending id below the bound, lists only rows that are in the table and belong to that restaurant, and nothing when the bound is at or below the first id (completeness and order are proved in `FindByRestaurantIdSpec`) |
| `Categories.FindByRestaurantIdSpec` | Restaurants/src/main/java/com/restaurants/service/FoodCategoryService.java:86 | the restaurant query lists every saved row of the restaurant and nothing else, each once, by ascending id |
| `Categories.InsertKeepsUniqueNames` | Restaurants/src/main/java/com/restaurants/service/FoodCategoryService.java:44-57 | inserting under an unused id keeps names unique per restaurant if and only if the case-insensitive existence query answers no |
| `Categories.InsertedIsFound` | Restaurants/src/main/java/com/restaurants/service/FoodCategoryService.java:44-57 | after the insert, the existence query for that restaurant and name answers yes |
| `Categories.Renamed` | Restaurants/src/main/java/com/restaurants/service/FoodCategoryService.java:115-117 | renaming keeps the key set and every other row, and keeps the row's id and restaurant id |
| `Categories.RenameKeepsUniqueNames` | Restaurants/src/main/java/com/restaurants/service/FoodCategoryService.java:109-117 | a rename keeps names unique if and only if no other row of the same restaurant matches the new name ignoring case |
| `Categories.RenameCanBreakUniqueNames` | Restaurants/src/main/java/com/restaurants/service/FoodCategoryService.java:109-117 | a table with unique names ("Drinks", "Snacks") loses that property when "Snacks" is renamed to "DRINKS" |
| `CategoryService.NotFoundWithId` | Restaurants/src/main/java/com/restaurants/service/FoodCategoryService.java:132 | the message starts with "Food Category not found with id " and is longer than that prefix |
| `CategoryService.NotFoundWithIdInjective` | Restaurants/src/main/java/com/restaurants/service/FoodCategoryService.java:132 | different ids give different messages |
| `CategoryService.FoodCategoryService.Save` | Restaurants/src/main/java/com/restaurants/service/FoodCategoryService.java:57 | an entity without an id is stored under the fresh id, which was unused, and the counter moves on; an entity with the id of a saved row replaces it; the table invariant is kept |
| `CategoryService.FoodCategoryService.AddFoodCategory` | Restaurants/src/main/java/com/restaurants/service/FoodCategoryService.java:41-60 | if the restaurant has the name ignoring case: AlreadyExists with the fixed message, nothing written; otherwise exactly one new row with the request's fields under a fresh id, every other row unchanged, the response carries that row, and the existence query now answers yes; names stay unique per restaurant |
| `CategoryService.FoodCategoryService.DeleteFoodCategory` | Restaurants/src/main/java/com/restaurants/service/FoodCategoryService.java:68-76 | absent id: NotFound, table unchanged; present id: exactly that row is removed; either way the id is absent afterwards, so a second delete is NotFound |
| `CategoryService.FoodCategoryService.GetAllCategoriesByRestaurantId` | Restaurants/src/main/java/com/restaurants/service/FoodCategoryService.java:84-95 | one response per row the restaurant query lists, in that order; every response is a converted saved row of that restaurant; every such row appears; ids ascend; the table is not modified |
| `CategoryService.FoodCategoryService.UpdateCategoryName` | Restaurants/src/main/java/com/restaurants/service/FoodCategoryService.java:106-121 | absent id: NotFound, table unchanged; present id: only that row's name changes, id and restaurant kept, no uniqueness check, and the renamed row is returned |
| `CategoryService.FoodCategoryService.GetFoodCategoryById` | Restaurants/src/main/java/com/restaurants/service/FoodCategoryService.java:130-141 | absent id: NotFound with "Food Category not found with id " followed by the id; present id: a response with the row's id, name and restaurant id; the table is not modified |
| `CategoryService.Walkthrough` | Restaurants/src/main/java/com/restaurants/service/FoodCategoryService.java:41-121 | on a fresh service: add "Drinks" succeeds with id 1; adding "drinks" is AlreadyExists; listing gives exactly that row; renaming to "Beverages" returns the new name; the first delete succeeds and the second is NotFound |
| `UserDtoConversion.ConvertUserRequestToUser` | Users/src/main/java/com/users/dtoconversion/DtoConversion.java:21-29 | name, password, phone, email and role are copied, nulls included; the id and the wallet are a new user's |
| `UserDtoConversion.UserToUserResponse` | Users/src/main/java/com/users/dtoconversion/DtoConversion.java:37-46 | the id, email, name, phone, password and wallet are copied |
| `UserDtoConversion.ConvertAddressRequestToAddress` | Users/src/main/java/com/users/dtoconversion/DtoConversion.java:54-63 | street, city, state, zip code, country and user id are copied, nulls included; the address id is a new address's |
| `UserDtoConversion.AddressToAddressResponse` | Users/src/main/java/com/users/dtoconversion/DtoConversion.java:71-80 | the same six fields are copied |
| `UserDtoConversion.AddressRoundTrip` | Users/src/main/java/com/users/dtoconversion/DtoConversion.java:54-80 | request to entity to response gives back all six fields of the request |
| `UserDtoConversion.AddressResponseForgetsOnlyId` | Users/src/main/java/com/users/dtoconversion/DtoConversion.java:71-80 | two addresses give the same response if and only if they differ at most in the address id |
| `UserDtoConversion.ConvertUserRequestToUserInjective` | Users/src/main/java/com/users/dtoconversion/DtoConversion.java:21-29 | two requests give the same user if and only if they are equal, so no request field is dropped |
| `UserDtoConversion.UserResponseForgetsOnlyRole` | Users/src/main/java/com/users/dtoconversion/DtoConversion.java:37-46 | two users give the same response if and only if they differ at most in the role |
| `UserDtoConversion.UserRoundTrip` | Users/src/main/java/com/users/dtoconversion/DtoConversion.java:21-46 | request to entity to response keeps email, name, phone and password, gives a new user's id and wallet, and has no role |
| `UserDtoConversion.AllNullRequestsConvert` | Users/src/main/java/com/users/dtoconversion/DtoConversion.java:21-63 | all-null user and address requests are accepted and convert to entities with every field at a new entity's value |

## Left out

- Logging, Spring dependency injection, the controllers and the mapping of exceptions to HTTP
  status codes are not modelled. They route calls and log, and decide nothing.
- Failures the service does not classify are not modelled. For example, a repository that
  throws is outside the map-based table.
- The check-then-act race between two concurrent adds is not modelled. Every call runs alone
  against the table.
- `Long` ids are unbounded integers. Overflow of the id counter is not modelled.
- The id generator is modelled as a counter that starts at 1. The real generator is owned by
  the database.
- `Categories.FindByRestaurantId` lists rows in ascending id order, which is insertion order.
  The real query has no `ORDER BY`, so the database may return rows in another order. The
  list operation's contract is stated relative to that query.
- The database's case-insensitive comparison is modelled as ASCII folding. Folding outside
  ASCII is not modelled.
- `CategoryService.FoodCategoryService.Save` requires that an entity with an id names a
  saved row. JPA's merge of an entity with an unknown id is not modelled; the service never
  saves one.
- `updateCategoryName` sets the name on the fetched entity object. The model copies the row
  as a value, so other references to that object are not modelled.
- The Restaurants `ConstantMessage` is not part of this model. The texts of
  `CATEGORY_ALREADY_EXISTS` ("Category already exists") and `CATEGORY_NOT_FOUND` ("Food
  category not found") are assumed; the contracts refer to the two constants by name.
- The Restaurants `DtoConversion` is not part of this model. Its two conversions are modelled
  as the field copies that `getFoodCategoryById` writes out by hand.
- `FoodCategoryRequest` is not part of this model. Its restaurant id and name are assumed to
  be present; the request's validation annotations are not among the sources. Null values
  there are not modelled.
- `CategoryService.FoodCategoryService.UpdateCategoryName` takes the new name as a `string`,
  so a null new name, which the service would store as it is, is not modelled.
- `User`, `UserRequest`, `UserResponse`, `Address` and `AddressResponse` are not part of this
  model. Their field types are inferred from the getters and setters used, and the phone
  number is taken to be a string.
- `UserDtoConversion.ConvertUserRequestToUser`: a new `User`'s id and wallet are modelled as
  the constant `NEW_USER`, with both null. If the entity starts its wallet at the
  `WALLET_AMOUNT` of 1000.0, that constant changes; the contracts are stated in terms of
  `NEW_USER`, so they still hold.
- The wallet is a `Double`. It is carried as an opaque 64-bit pattern and only copied.
- Password encoding (`PasswordEncodingAndDecoding`) is not modelled. It wraps the Base64
  codec of section 4 of RFC 4648 and the platform charset, and proving it would mean
  modelling that library rather than this code.
