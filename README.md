# Beer stock service — a verified model

This project models the stock service of a small beer-inventory API. The
service keeps a table of beer records. Each record has an id, a name, a
quantity, a max, and pass-through fields: brand and type. The service offers
five operations:

- **createBeer** refuses a name that is already stored. Otherwise it saves the record.
- **findByName** looks a record up by exact name.
- **listAll** returns every record in its caller-facing form.
- **deleteById** removes a record after checking that its id exists.
- **increment** adds to a record's stock only if the new quantity stays within the record's max.

The model has three modules, one per source component:

- `Beers` (beers.dfy) holds the entity `Beer`, the caller-facing `BeerDTO`, the field-copy mapper between them, and `Result`.
  `Result` is `Ok` or one of the three typed failures the service throws: `AlreadyRegistered(name)`, `NotFound(key)` and `StockExceeded(id, amount)`.
- `Repository` (repository.dfy) is the storage as an in-memory `Table`.
  A table holds the rows in iteration order and the next id its generator hands out.
  Its operations are find-by-id, find-by-name, save and delete-by-id, written as functions.
  `WellFormed` says that every row has a generated id and that no two rows share an id.
- `Service` (service.dfy) is the class `BeerService`.
  Its one field `repo` is the table, and its methods change that field.
  Its `Valid()` adds that no two rows share a name. Every method keeps `Valid()`, so names stay unique after every operation.
  The read-only operations are methods without a `modifies` clause, so they cannot change the store.
  Two client methods, `IncrementScenario` and `DeleteScenario`, use only the contracts.
  From the unit tests they take a taken name being refused, 10 + 10 in stock succeeding, and an empty list from an empty store.
  Worked out from the contracts beyond the tests: the refusal at 20 + 40 > 50, the inclusive bound (30 more filling 20 of 50 exactly), a second delete failing, and an empty list after the last delete.

Every failing call leaves `repo` exactly as it was: each check happens before
any write. A successful call changes only its target row. `createBeer`
appends one row, or overwrites the row whose id the DTO carries. `increment`
replaces one row, changing only its quantity. `deleteById` removes one row and
keeps the others in order.

## Model

| member | source | states |
|---|---|---|
| `Beers.ToModel` | BeerAPI/src/main/java/com/digitalinnovationone/beer_api/demo/mapper/BeerMapper.java:14-16 | The mapper loses nothing: converting the entity back with `ToDTO` gives the original DTO. |
| `Beers.ModelRoundTrip` | BeerAPI/src/main/java/com/digitalinnovationone/beer_api/demo/mapper/BeerMapper.java:14-16 | The other direction, for `ToDTO` (line 16): `ToModel(ToDTO(b)) == b` for every entity, so `ToDTO` loses nothing either. |
| `Repository.IndexOfId` | BeerAPI/src/main/java/com/digitalinnovationone/beer_api/demo/repository/BeerRepository.java:8 | Returns an index exactly when some row has the id. That row has the id and no earlier row does. |
| `Repository.IndexOfName` | BeerAPI/src/main/java/com/digitalinnovationone/beer_api/demo/repository/BeerRepository.java:10 | Returns an index exactly when some row has the name. That row is the first with that name. |
| `Repository.FindById` | BeerAPI/src/main/java/com/digitalinnovationone/beer_api/demo/repository/BeerRepository.java:8 | Finds a row exactly when the id is stored. The row found is a stored row with that id. |
| `Repository.FindByName` | BeerAPI/src/main/java/com/digitalinnovationone/beer_api/demo/repository/BeerRepository.java:10 | Finds a row exactly when the name is stored. The row found is a stored row with that exact name. |
| `Repository.Save` | BeerAPI/src/main/java/com/digitalinnovationone/beer_api/demo/repository/BeerRepository.java:8 | Keeps the table well formed. A beer whose id is stored replaces that row in place, and no other row or the id counter changes. Any other beer is appended under the next generated id. |
| `Repository.DeleteById` | BeerAPI/src/main/java/com/digitalinnovationone/beer_api/demo/repository/BeerRepository.java:8 | Removes exactly the row with the id and keeps the rest in order. The id is absent afterwards. A missing id leaves the table unchanged. |
| `Repository.SaveKeepsNamesDistinct` | BeerAPI/src/main/java/com/digitalinnovationone/beer_api/demo/service/BeerService.java:26-31 | Names stay distinct after saving a beer whose name is unused or belongs only to the row it overwrites. This covers createBeer and increment. |
| `Repository.DeleteKeepsNamesDistinct` | BeerAPI/src/main/java/com/digitalinnovationone/beer_api/demo/service/BeerService.java:46-49 | deleteById keeps names distinct. |
| `Repository.SavedIsFoundByName` | BeerAPI/src/main/java/com/digitalinnovationone/beer_api/demo/service/BeerService.java:26-37 | After a save under a fresh name, findByName with that name returns the beer exactly as stored. |
| `Service.BeerService.constructor` | BeerAPI/src/main/java/com/digitalinnovationone/beer_api/demo/service/BeerService.java:18-24 | The service starts over an empty, valid table. |
| `Service.BeerService.VerifyIfIsAlreadyRegistered` | BeerAPI/src/main/java/com/digitalinnovationone/beer_api/demo/service/BeerService.java:51-56 | Fails exactly when some stored beer has the name. The failure is `AlreadyRegistered(name)`. |
| `Service.BeerService.VerifyIfExists` | BeerAPI/src/main/java/com/digitalinnovationone/beer_api/demo/service/BeerService.java:58-61 | Succeeds exactly when the id is stored and returns that stored beer. Otherwise it fails with `NotFound(ById(id))`. |
| `Service.BeerService.CreateBeer` | BeerAPI/src/main/java/com/digitalinnovationone/beer_api/demo/service/BeerService.java:26-31 | Fails with `AlreadyRegistered(name)` exactly when the name is taken, and then changes nothing. On success the result has an id and otherwise equals the DTO. findByName then returns it. Without a stored id in the DTO, exactly one row is appended under the next generated id; a stored id overwrites only that row. Names stay unique. |
| `Service.BeerService.FindByName` | BeerAPI/src/main/java/com/digitalinnovationone/beer_api/demo/service/BeerService.java:33-37 | Succeeds exactly when the name is stored and returns that stored record as a DTO. Otherwise it fails with `NotFound(ByName(name))`. It cannot modify the store. |
| `Service.BeerService.ListAll` | BeerAPI/src/main/java/com/digitalinnovationone/beer_api/demo/service/BeerService.java:39-44 | Never fails. Returns one DTO per stored row, in storage order, each mapping back to its row; an empty store gives the empty sequence. It cannot modify the store. |
| `Service.BeerService.DeleteById` | BeerAPI/src/main/java/com/digitalinnovationone/beer_api/demo/service/BeerService.java:46-49 | Fails with `NotFound(ById(id))` exactly when the id is missing, and then changes nothing. Otherwise it removes exactly that row. Afterwards the id is absent, so a second delete fails. |
| `Service.BeerService.Increment` | BeerAPI/src/main/java/com/digitalinnovationone/beer_api/demo/service/BeerService.java:64-74 | A missing id gives `NotFound(ById(id))` with no change. For a stored beer it succeeds exactly when `current + amount <= max`, so the bound is inclusive. On success only that row's quantity changes, to `current + amount`, and the result has `quantity <= max`. Otherwise it fails with `StockExceeded(id, amount)` and the store is exactly as before. |
| `Service.Int32Add` | BeerAPI/src/main/java/com/digitalinnovationone/beer_api/demo/service/BeerService.java:66 | Java `int` addition: the result lies in the 32-bit range, is congruent to the exact sum modulo 2^32, and equals the exact sum when that sum fits. |
| `Service.StockCheckAsWritten` | BeerAPI/src/main/java/com/digitalinnovationone/beer_api/demo/service/BeerService.java:66-67 | The capacity check as the Java service computes it, with a 32-bit sum. Whenever the true sum fits in an `int`, it accepts exactly when `current + amount <= max`. |
| `Service.OverflowPassesStockCheck` | BeerAPI/src/main/java/com/digitalinnovationone/beer_api/demo/service/BeerService.java:66-67 | The check as written (32-bit sum) accepts 10 + 2147483647 against max 50, and the wrapped new stock is below the current one. The unbounded check refuses it. |

## Left out

- Spring wiring (`@Service`, constructor injection): the repository is the service's `repo` field.
- The JPA/Spring Data repository: its code is not shown, so it is replaced by the in-memory `Table`.
  Save overwrites a row whose id is stored and otherwise appends under a generated id. This includes a DTO id the table does not hold, which is ignored as with a generated key.
- deleteById of a missing id in the table is modelled as a no-op. The service always checks existence first, so this never matters.
- The storage's iteration order is modelled as insertion order. The real order is implementation-defined.
- findByName over duplicate names is modelled as returning the first match. The class's `Valid()` keeps names unique, so this never happens.
- The MapStruct mapper's generated code is not shown. `ToModel`/`ToDTO` are modelled as a lossless field-by-field copy.
- Null arguments (a null `Long` id or DTO name) are not modelled: ids are `int` and names are sequences of characters.
- The entity's `BeerType` enum is not shown. The type is a pass-through string.
- Java exceptions are `Result` failures. Storage failures such as lost connections are not modelled.
- `Service.BeerService.Increment`: uses unbounded integers, so it does not model the 32-bit wrap-around of `quantity + getQuantity()`. That wrap is modelled separately as a finding below.
- `Service.BeerService.Increment`: does not require `amount >= 0`, because BeerService does not check it. A negative amount lowers the stock.
- `Service.BeerService.CreateBeer`: does not make `quantity <= max` hold for the stored record, because BeerService does not check it. `quantity <= max` is promised only for the result of a successful increment.
- The check-then-act race between concurrent createBeer or increment calls: the model is sequential.
- The HTTP controller, DTO/entity annotations and builder classes are not part of this model.

## Findings

| source | as written | input that shows it | evidently intended | confidence | as-written member | corrected member |
|---|---|---|---|---|---|---|
| BeerAPI/src/main/java/com/digitalinnovationone/beer_api/demo/service/BeerService.java:66-68 | `quantity + getQuantity()` is a 32-bit `int` sum that wraps on overflow, so a huge increment gets past the `<= max` check | stock 10, max 50, increment 2147483647: the sum wraps to -2147483639 <= 50, so the call succeeds and stores a negative quantity | refuse any increment whose true sum exceeds max | medium, not executed | `Service.StockCheckAsWritten`, `Service.OverflowPassesStockCheck` | `Service.BeerService.Increment` |
