# CATalogue: the cat-record lifecycle in Dafny

This project models the core of CATalogue, a small REST service for a shelter's
catalogue of cats. The core is `CatController`. It validates new cats, lists
all / adopted / not-adopted cats, looks cats up and deletes them by id, replaces
a whole record, and updates a single field. Its one collaborator is the record
store (`CatRepository`, a Spring Data repository keyed by integer id).

Three modules follow the three Java packages:

- `Model` (`cat.dfy`): the `Cat` entity as a datatype with its six fields in
  the all-args constructor's order. It also holds Lombok's field-wise `equals`
  (`Equals`), the generated setters (`SetName` … `SetAdopted`), and the
  adoption-flag filter (`WithAdopted`) that both listings use. A Java `String`
  that may be null is an `Option<string>`.
- `Repository` (`cat_repository.dfy`): the store as a class `CatRepository`.
  Its fields are a map `cats` from id to cat and the row order `ids` that
  `findAll` returns. It also has `nextId`, the next value of the IDENTITY column
  (starting at 1, so the Java default id 0 is never a stored key). `Valid()`
  states that every row is stored under its own id, that `ids` lists each key
  once, and that every key is below `nextId`. `Save` overwrites a stored id and
  otherwise inserts the cat under a fresh id. Its contract only says the new id
  was not in use (`SaveEffect`). `DeleteById` removes a row and its place in
  the order.
- `Controller` (`cat_controller.dfy`): the endpoints are methods of a class
  `CatController` that holds the repository. Outcomes are `Response` values:
  `Ok` (200), `Created` (201), `BadRequest` (400) and `NotFound` (404).
  Create validation is the function `Validate`. It is specified against a
  table of four rules (`Rules`, `Passes`, `Message`): the result is the message
  of the first failing rule, and `None` exactly when all four pass. The
  dispatch of `updateCatField` is `ApplyField`. Its value is a tagged
  `FieldValue` (text or number) instead of an unchecked cast.

Consequences of the code that the model makes explicit:

- `addCat` never assigns the id. A body whose id is already stored therefore
  overwrites that row, through the store's save-or-update rule. A body with any
  other id gets a fresh one.
- `updateCat` and the single-field updates apply no validation. An empty name
  or a negative age is stored as given.
- A field name other than `name`, `age` or `breed`, in any letter case, leaves
  the cat unchanged, but the cat is still saved.

The four rejection messages are "Cat name is required", "Cat breed is
required", "Cat age cannot be negative" and "Cat gender is required".

## Model

| member | source | states |
|---|---|---|
| `Model.Equals` | src/main/java/es/mehtap/CATalogue/model/Cat.java:12-23 | the generated `equals` holds exactly when all six fields are equal |
| `Model.SetName` | src/main/java/es/mehtap/CATalogue/model/Cat.java:19 | `setName` writes the name and leaves id, breed, age, gender and adoption flag as they were |
| `Model.SetBreed` | src/main/java/es/mehtap/CATalogue/model/Cat.java:20 | `setBreed` writes the breed and leaves the other five fields as they were |
| `Model.SetAge` | src/main/java/es/mehtap/CATalogue/model/Cat.java:21 | `setAge` writes the age and leaves the other five fields as they were |
| `Model.SetGender` | src/main/java/es/mehtap/CATalogue/model/Cat.java:22 | `setGender` writes the gender and leaves the other five fields as they were |
| `Model.SetAdopted` | src/main/java/es/mehtap/CATalogue/model/Cat.java:23 | `setAdopted` writes the adoption flag and leaves the other five fields as they were |
| `Model.WithAdopted` | src/main/java/es/mehtap/CATalogue/controller/CatController.java:53-55 | a cat is in the filtered list exactly when it is in the input and its flag is the one asked for; the result is no longer than the input |
| `Model.WithAdoptedAppend` | src/main/java/es/mehtap/CATalogue/controller/CatController.java:53-55 | the filter keeps the input order: filtering a concatenation is the concatenation of the filtered parts |
| `Model.AdoptionPartition` | src/main/java/es/mehtap/CATalogue/controller/CatController.java:48-69 | the adopted and not-adopted filters of any list together hold each of its elements exactly once (as multisets) |
| `Repository.CatRepository.FindAll` | src/main/java/es/mehtap/CATalogue/repository/CatRepository.java:8 | `findAll` lists every stored cat once: a cat is listed exactly when it is the row under its own id, each listed cat occurs exactly once, and the list is as long as the store |
| `Repository.CatRepository.FindById` | src/main/java/es/mehtap/CATalogue/repository/CatRepository.java:8 | `findById` is present exactly when the id is stored, and then it is that row, whose id is the one asked for |
| `Repository.CatRepository.FindByIsAdopted` | src/main/java/es/mehtap/CATalogue/repository/CatRepository.java:10 | `findByIsAdopted(b)` holds exactly the stored cats whose flag is `b` |
| `Repository.CatRepository.Save` | src/main/java/es/mehtap/CATalogue/model/Cat.java:16-18 | `save` keeps the store valid. A stored id is overwritten in place. Any other cat is stored under an id not in use before, appended to the row order. The saved cat carries the input's five client fields |
| `Repository.CatRepository.DeleteById` | src/main/java/es/mehtap/CATalogue/repository/CatRepository.java:8 | `deleteById` removes exactly that key and its place in the row order; the rest stays, and an absent id changes nothing |
| `Controller.Validate` | src/main/java/es/mehtap/CATalogue/controller/CatController.java:75-96 | a candidate is accepted exactly when name, breed and gender are non-null and non-empty and age is not negative. Otherwise the result is the message of the first failing rule in the order name, breed, age, gender, and all earlier rules pass |
| `Controller.ValidateExamples` | src/main/java/es/mehtap/CATalogue/controller/CatController.java:75-96 | an empty name gives "Cat name is required" whatever else is wrong; valid name and breed with age -1 give "Cat age cannot be negative"; age 0 is accepted |
| `Controller.MessagesDistinct` | src/main/java/es/mehtap/CATalogue/controller/CatController.java:77-95 | the four messages differ, so the message names the failing rule |
| `Controller.ApplyField` | src/main/java/es/mehtap/CATalogue/controller/CatController.java:152-159 | the field named case-insensitively by `name`, `age` or `breed` takes the new value. Every other field keeps its value. Any other field name leaves the cat unchanged |
| `Controller.FieldNameIgnoresCase` | src/main/java/es/mehtap/CATalogue/controller/CatController.java:153-158 | "NAME" and "Name" update the name as "name" does; "gender" changes nothing |
| `Controller.CatController.GetAllCats` | src/main/java/es/mehtap/CATalogue/controller/CatController.java:40-43 | returns the store's listing: exactly the stored cats |
| `Controller.CatController.GetNotAdoptedCats` | src/main/java/es/mehtap/CATalogue/controller/CatController.java:48-58 | returns the store's listing filtered to flag false: a cat is returned exactly when it is stored and not adopted |
| `Controller.CatController.GetAdoptedCats` | src/main/java/es/mehtap/CATalogue/controller/CatController.java:63-69 | returns exactly the stored adopted cats, possibly none (not an error) |
| `Controller.CatController.AddCat` | src/main/java/es/mehtap/CATalogue/controller/CatController.java:73-101 | a candidate failing validation gets 400 with the first failing rule's message, and the store is unchanged. Otherwise the cat is saved as given (no id assigned by the controller) and returned with 201, matching the input on name, breed, age, gender and adoption flag |
| `Controller.CatController.FindCatByIdOrThrow` | src/main/java/es/mehtap/CATalogue/controller/CatController.java:103-108 | the result is the stored cat exactly when the id is present, and 404 "Cat not found" exactly when it is absent |
| `Controller.CatController.GetCatById` | src/main/java/es/mehtap/CATalogue/controller/CatController.java:113-116 | returns the stored cat when present, otherwise 404 "Cat not found" |
| `Controller.DecimalRoundTrip` | src/main/java/es/mehtap/CATalogue/controller/CatController.java:126 | the id text in the delete confirmation reads back, digit by digit in base ten, as the id itself |
| `Controller.CatController.DeleteCat` | src/main/java/es/mehtap/CATalogue/controller/CatController.java:121-131 | an absent id gets 404 and the store is unchanged. A present id gets 200 with "Cat with id N deleted successfully", and only that row is removed. Afterwards the id is absent |
| `Controller.DeleteThenGet` | src/main/java/es/mehtap/CATalogue/controller/CatController.java:113-131 | a lookup after a delete of the same id is 404 "Cat not found" |
| `Controller.CatController.UpdateCat` | src/main/java/es/mehtap/CATalogue/controller/CatController.java:137-149 | an absent id gets 404 and the store is unchanged. A present id gets all five client fields from the body without validation, keeps the path id, and no other row or row position changes |
| `Controller.CatController.UpdateCatField` | src/main/java/es/mehtap/CATalogue/controller/CatController.java:152-161 | saves the cat with only the named field changed, with the store's save effect |
| `Controller.CatController.UpdateCatName` | src/main/java/es/mehtap/CATalogue/controller/CatController.java:165-169 | an absent id gets 404 and the store is unchanged. Otherwise only that cat's name changes, and it is returned with 200 |
| `Controller.CatController.UpdateCatAge` | src/main/java/es/mehtap/CATalogue/controller/CatController.java:173-177 | an absent id gets 404 and the store is unchanged. Otherwise only that cat's age changes (no range check), and it is returned with 200 |
| `Controller.CatController.UpdateCatBreed` | src/main/java/es/mehtap/CATalogue/controller/CatController.java:181-185 | an absent id gets 404 and the store is unchanged. Otherwise only that cat's breed changes, and it is returned with 200 |
| `Controller.NotAdoptedExample` | src/test/java/es/mehtap/CATalogue/controller/CatControllerTest.java:28-47 | of cats 1, 2, 3 with only cat 2 adopted, the not-adopted listing is cats 1 and 3 in that order |
| `Controller.ListingsPartitionStore` | src/main/java/es/mehtap/CATalogue/controller/CatController.java:48-69 | the adopted and not-adopted listings of a store hold each stored cat exactly once, and their lengths add up to the number of stored cats |

## Left out

- Logging through SLF4J (the `info`/`warn`/`error` calls): it has no effect on state or results, including the warning `getAdoptedCats` logs for an empty result.
- `getAdoptionCenterInfo` and the two `@Value` configuration fields: property injection and string concatenation, unrelated to the lifecycle.
- HTTP routing, `ResponseEntity` and `ResponseStatusException`: outcomes are `Response` values carrying the status code and the reason.
- The JPA/Hibernate machinery behind the repository (SQL, persistence contexts, how IDENTITY values are generated). The store is an abstract map. The only promise about a new id is that it was not in use. The save-or-update decision is modelled as "the id is already stored", and the row order of `findAll` and `findByIsAdopted` as insertion order, which the database does not guarantee.
- Concurrency, including the race between the existence check and `deleteById` in `deleteCat`: each operation is one sequential step.
- The unchecked casts in `updateCatField`: the value is a tagged `FieldValue`. A mismatched value (the cast that would throw) is excluded by the precondition `Fits`. The three endpoints always pass the matching type.
- Java's 32-bit `int` for id and age: the core does no arithmetic on them, so the model uses unbounded integers.
- `equalsIgnoreCase` is modelled with ASCII letter folding. This gives Java's answer for the field names `name`, `age` and `breed`, the only ones the code compares against.
- Request parameters `newName` and `newBreed` are non-null strings, since Spring rejects a missing required parameter before the method runs. A request body's string fields may be null.
- The Mockito test harness: only its asserted example is kept, as `NotAdoptedExample`.
