# Fruits and vegetables: the storage coordination layer

The inventory service keeps fruits and vegetables in two places. A
relational table per category is the system of record. A search index per
category serves name searches. This project models the layer that
coordinates the two stores:

- **StorageService** (module `Storage`, `storage_service.dfy`). `add`
  validates an item and rewrites a quantity given in kilograms to grams. It
  writes the item to the repository of its category and, only when that
  write reports `true`, mirrors the item without its `id` into the index.
  `remove` looks the row up, deletes it and, only when the delete reports
  `true`, removes the name from the index. `list` fetches a category, by
  name or in full, and projects each row to `{id, name, quantity}` in the
  requested unit. `searchByName` delegates to the index service.
- **RepositoryFactory** (module `Factory`). Strict dispatch from `"fruit"`
  or `"vegetable"` to the injected repository. Any other value is an
  invalid item type.
- **UnitConverter** (module `UnitConverter`). Grams to kilograms and back,
  by a factor of 1000.
- **ElasticsearchService** (module `Elasticsearch`). Each operation runs a
  cluster health check first. `add` creates the index on demand and indexes
  the document. `remove` deletes by a wildcard query on `name`.
  `searchByName` searches every index for `*name*`.
- **ValidTypeValidator** (module `Validation`). The membership check on the
  two category names, and the violation it records otherwise.

The collaborators behind these classes do real I/O, so they are modelled
abstractly:

- A repository (module `Repositories`) is a table of rows keyed by an
  auto-increment id.
- The search cluster is a map from index names to document sequences.
- Whether a database write goes through, is refused or raises is a
  `StoreReply` parameter.
- Whether the cluster answers is the cluster's `alive` field.
- The engine's wildcard matching is a predicate parameter, and the hits of
  a search are a parameter.

The coordinator's add and remove are specified by functions of the whole
state (`AddSpec`, `RemoveSpec`); list and processItems by their methods'
ensures, and searchByName by the index service's `SearchEffect`. The status it returns and the ordered log
of collaborator calls (ghost field `calls`) are part of that function's
result. The class methods are proved to follow those functions step by
step. The lemmas then state the promised behaviour about the functions:
which calls happen, in what order, with what arguments, and which error
surfaces.

Modelling choices:

- PHP arrays are `map<string, Value>`. Reading a missing key gives null,
  and `isset` means present and not null.
- Quantities are exact `real`s.
- PHP's coercive typing applies. A quantity in kilograms may be a number
  or a numeral string such as `"2"`, which is converted like a number.
  Null or any other string there stops `add` with PHP's type error. That
  error is raised outside the `try` block, so it is not rewrapped. The
  repository likewise stores a numeral-string quantity as the number it
  spells.
- For any unit other than `"kg"`, `add` re-assigns the quantity to itself.
  So an item without a `quantity` key acquires one holding null. The model
  does the same.

## Model

| member | source | states |
|---|---|---|
| Globals.Get | src/Service/StorageService.php:43-45 | reading an absent key of an item yields null, a present key its value |
| Globals.Category.Name | src/Enum/SuperMarketGlobals.php:7-8 | each category is named by one of the two literal type strings |
| Globals.CategoryOf | src/Enum/SuperMarketGlobals.php:7-8 | a value names a category only when it is exactly `"fruit"` or `"vegetable"`; anything else names none |
| Globals.CategoryNameRoundTrip | src/Enum/SuperMarketGlobals.php:7-8 | recognising a category's name gives the category back, and the two names differ |
| Globals.Message | src/Exception/InvalidItemException.php:12 | a plain exception carries exactly its message; the no-alive-nodes error carries the text the index service throws |
| NumericStrings.DotIndex | src/Service/StorageService.php:44 | the position found is the first decimal point, or the end when there is none |
| NumericStrings.Unsigned | src/Service/StorageService.php:44 | an unsigned numeral stands for a non-negative number and holds at least one digit |
| NumericStrings.ParseNumeral | src/Service/StorageService.php:44 | a numeral holds at least one digit, and its value has the sign written |
| NumericStrings.NumericValue | src/Service/StorageService.php:44 | where a float is declared, a number stands for itself, a string for the number it spells if any, and null for none |
| NumericStrings.RenderIsDigits | src/Service/StorageService.php:44 | the decimal rendering of a natural number is a non-empty run of digits whose value is that number |
| NumericStrings.RenderedNumeralRoundTrip | src/Service/StorageService.php:44 | a rendered number, with or without a minus sign, reads back as that number |
| NumericStrings.Decimal | src/Service/StorageService.php:44 | a decimal is at least its whole part |
| NumericStrings.NoPointInDigits | src/Service/StorageService.php:44 | a run of digits contains no decimal point |
| NumericStrings.AllDigitsAppend | src/Service/StorageService.php:44 | two runs of digits joined are a run of digits |
| NumericStrings.DigitsSnoc | src/Service/StorageService.php:44 | one more digit at the end multiplies the value by ten and adds that digit |
| NumericStrings.DigitsAppend | src/Service/StorageService.php:44 | appending digits to a run of digits scales the leading value by a power of ten and adds the appended value |
| NumericStrings.DotAfterDigits | src/Service/StorageService.php:44 | in digits followed by a point, the first point is the one right after the digits |
| NumericStrings.UnsignedWithPoint | src/Service/StorageService.php:44 | digits, a point and digits read as the whole part plus the fraction |
| NumericStrings.DecimalScale | src/Service/StorageService.php:44 | a decimal equals all its digits read as one whole number divided by ten to the number of places |
| NumericStrings.UnsignedStart | src/Service/StorageService.php:44 | a numeral starting with a digit or a point has no sign; a leading plus keeps its value and a leading minus negates it |
| NumericStrings.UnsignedFraction | src/Service/StorageService.php:44 | unsigned digits, a point and digits read as all the digits' whole value divided by ten to the number of fraction digits |
| NumericStrings.WholeNumeral | src/Service/StorageService.php:44 | a numeral of digits alone, zero-padded or not, reads as its digits' value (`"007"` is 7); a leading plus keeps it and a leading minus negates it |
| NumericStrings.FractionalNumeral | src/Service/StorageService.php:44 | a numeral with a decimal point, signed or not, reads as its digits' whole value divided by ten to the number of fraction digits (`"-0.25"` is -25/100) |
| UnitConverter.ConvertToGrams | src/Helper/UnitConverter.php:13-16 | grams divided by 1000 give the quantity; zero iff zero; negative iff negative |
| UnitConverter.ConvertToKilograms | src/Helper/UnitConverter.php:24-27 | kilograms times 1000 give the quantity; zero iff zero; negative iff negative |
| UnitConverter.RoundTrip | src/Helper/UnitConverter.php:13-27 | converting to grams and back, or to kilograms and back, returns the original quantity |
| UnitConverter.Monotonic | src/Helper/UnitConverter.php:13-27 | both conversions preserve strict order in both directions |
| Repositories.EverythingContainsEmpty | src/Repository/FruitRepository.php:88-93 | the pattern `%%` built from an empty name matches every name |
| Repositories.SelectSpec | src/Repository/FruitRepository.php:88-93 | the selection holds exactly the stored rows below the bound whose name contains the filter, each once, in ascending id order |
| Repositories.RowOf | src/Repository/FruitRepository.php:34-36 | the new row carries the item's name and the number its quantity stands for |
| Repositories.Inserted | src/Repository/FruitRepository.php:29-44 | a stored item becomes a new row under a fresh id with the item's name and quantity; every existing row is kept and the ids stay consistent |
| Repositories.Removed | src/Repository/FruitRepository.php:67-79 | deleting removes exactly that id and keeps every other row; ids are not reused |
| Repositories.Repository.Add | src/Repository/FruitRepository.php:29-44 | on success the table becomes the inserted table and the answer is true; a refusal answers false; an exception is rethrown with the same message; both leave the table unchanged |
| Repositories.Repository.Find | src/Repository/FruitRepository.php:11 | a row is found iff its id is stored, and it is the stored row |
| Repositories.Repository.Delete | src/Repository/FruitRepository.php:67-79 | on success the row's id is removed and the answer is true; otherwise the table is unchanged and the answer is false or the rethrown error |
| Repositories.Repository.FindAllSpec | src/Repository/FruitRepository.php:13 | `findAll` lists every stored row exactly once, in id order, and nothing else |
| Repositories.Repository.FindByNameSpec | src/Repository/FruitRepository.php:88-93 | `findByName` lists exactly the stored rows whose name contains the given name, in id order |
| Factory.RepositoryFactory.GetRepository | src/Repository/Factory/RepositoryFactory.php:27-34 | `"fruit"` gives the fruit repository, `"vegetable"` the vegetable repository, and every other value (null, empty, other spellings) the invalid-type error |
| Factory.RepositoryFactory.RoutesByCategory | src/Repository/Factory/RepositoryFactory.php:29-33 | the selected repository serves the category the type names, and the two types never share a repository |
| Elasticsearch.SearchPattern | src/Service/ElasticsearchService.php:92-101 | the pattern is the name verbatim between one leading and one trailing `*` |
| Elasticsearch.Sources | src/Service/ElasticsearchService.php:105 | one result per hit, in hit order, each the hit's `_source` |
| Elasticsearch.Keep | src/Service/ElasticsearchService.php:66-81 | a delete-by-query keeps exactly the documents whose `name` the engine does not match, and no more of them than there were |
| Elasticsearch.KeepCounts | src/Service/ElasticsearchService.php:66-81 | every copy of a matched document is deleted, and every unmatched one is kept as often as it occurred |
| Elasticsearch.KeepDistributes | src/Service/ElasticsearchService.php:66-81 | filtering distributes over concatenation, so the kept documents stay in their original relative order |
| Elasticsearch.WithDocument | src/Service/ElasticsearchService.php:22-46 | the target index gains the document at its end, created with the item mapping only if missing; other indices are untouched |
| Elasticsearch.AddedDocumentIsStored | src/Service/ElasticsearchService.php:42-46 | after an add the index exists, holds the document, and keeps its earlier documents as a prefix |
| Elasticsearch.AddRequests | src/Service/ElasticsearchService.php:24-46 | an add checks existence first, sends a create iff the index is missing, and indexes the document last; it never deletes or searches |
| Elasticsearch.HealthCheckFirst | src/Service/ElasticsearchService.php:51-59 | add, remove and search each send the health check first; with no alive node each fails with the no-alive-nodes error and sends nothing else |
| Elasticsearch.AddStoresItem | src/Service/ElasticsearchService.php:18-48 | on a live cluster add stores the body unchanged as the last document of the index named by its type, creates that index iff it was missing, and touches no other index |
| Elasticsearch.SearchReturnsStoredDocuments | src/Service/ElasticsearchService.php:88-106 | a search changes no index and answers the hits' sources (empty for no hits); when the engine's hits are stored documents, every document returned is stored |
| Elasticsearch.RemoveRequests | src/Service/ElasticsearchService.php:61-86 | on a missing index remove answers null and sends no delete-by-query; otherwise it sends exactly one, with the name as the pattern verbatim |
| Elasticsearch.Cluster.Health | src/Service/ElasticsearchService.php:54 | the health call succeeds iff a node answers, and is logged |
| Elasticsearch.Cluster.IndexExists | src/Service/ElasticsearchService.php:25 | the existence check answers whether the index is present, and is logged |
| Elasticsearch.Cluster.CreateIndex | src/Service/ElasticsearchService.php:27-38 | creating adds an empty index with the given mapping, and is logged |
| Elasticsearch.Cluster.IndexDoc | src/Service/ElasticsearchService.php:42-46 | indexing appends the body to the index, and is logged |
| Elasticsearch.Cluster.DeleteBy | src/Service/ElasticsearchService.php:68-79 | delete-by-query keeps the unmatched documents and reports how many were deleted |
| Elasticsearch.Cluster.SearchFor | src/Service/ElasticsearchService.php:103 | a search returns the engine's hits and is logged |
| Elasticsearch.ElasticsearchService.CheckClusterHealth | src/Service/ElasticsearchService.php:51-59 | fails with the no-alive-nodes error iff no node answers; sends only the health request |
| Elasticsearch.ElasticsearchService.Add | src/Service/ElasticsearchService.php:18-49 | the cluster's new state, its request log and the answer are those of `AddEffect` |
| Elasticsearch.ElasticsearchService.Remove | src/Service/ElasticsearchService.php:61-86 | the cluster's new state, its request log and the answer are those of `RemoveEffect` |
| Elasticsearch.ElasticsearchService.SearchByName | src/Service/ElasticsearchService.php:88-106 | the request log and the answer are those of `SearchEffect`: a health check, one `_all` search for `*name*`, the hits' sources in order |
| Validation.IsValidType | src/Validator/Constraints/ValidTypeValidator.php:13 | a value is valid iff it names a category, i.e. exactly the values the repository dispatch accepts |
| Validation.ValidTypeValidator.Validate | src/Validator/Constraints/ValidTypeValidator.php:11-18 | a valid type records nothing; any other value records exactly one violation with the constraint's message and the value bound to `{{ value }}` |
| Storage.Normalize | src/Service/StorageService.php:38-45 | a missing or null type is an invalid item; in kilograms the new quantity converts back to the number the given one stands for (null or a non-numeral string is a type error); in any other unit the quantity is kept; no other entry changes |
| Storage.NormalizeKeepsNonKilogramItems | src/Service/StorageService.php:43-45 | a typed item with a quantity in any unit but `"kg"` passes unchanged |
| Storage.IndexBody | src/Service/StorageService.php:52 | the forwarded document is the item without `id`, every other entry unchanged |
| Storage.Rethrow | src/Service/StorageService.php:55-57 | a caught error is rethrown as a plain exception with the same message |
| Storage.ListEntry | src/Service/StorageService.php:124-131 | a listing entry keeps id and name; its quantity converts back to the stored grams when the unit is `"kg"` and equals them otherwise |
| Storage.AddWithoutTypeCallsNothing | src/Service/StorageService.php:38-40 | an item without a type fails as invalid before any collaborator call, and nothing changes |
| Storage.AddUnknownTypeWritesNothing | src/Service/StorageService.php:48 | an unknown type fails with its own invalid-type error and no write happens |
| Storage.AddWritesConvertedItem | src/Service/StorageService.php:43-51 | the repository receives the item with the quantity multiplied by 1000 exactly when the unit is `"kg"`, other entries as given |
| Storage.AddConvertsNumeralKilograms | src/Service/StorageService.php:43-54 | `"2"` kilograms of apples reach the repository and the index as 2000 grams, and the new row holds 2000 |
| Storage.AddStoresNumericQuantity | src/Service/StorageService.php:43-54 | whether the quantity is a number or a numeral string, the new row holds its number in grams (converted iff the unit is `"kg"`), and in other units the index receives the quantity as given |
| Storage.AddIndexesOnlyStoredItems | src/Service/StorageService.php:50-54 | the index is called iff the item is routable and the repository write reports true, always after that write, with the written item minus `id`; a write reporting false returns normally and changes nothing |
| Storage.AddFailuresKeepMessage | src/Service/StorageService.php:50-57 | a repository exception surfaces as a plain one with the same message and no index call; an index failure surfaces likewise while the written row stays |
| Storage.AddKeepsStoresInStep | src/Service/StorageService.php:50-54 | after an add that succeeds on both sides, the new row and the index's last document carry the same name and quantity |
| Storage.RemoveRejectsUnknownTypes | src/Service/StorageService.php:73-78 | a null type fails as an invalid item and any other unknown type as an invalid type, before any repository call |
| Storage.RemoveMissingIdDeletesNothing | src/Service/StorageService.php:80-88 | a missing id fails with no-item after the lookup, with no delete and no index call |
| Storage.RemoveIndexesOnlyDeletedItems | src/Service/StorageService.php:82-85 | the index removal of the row's name happens iff the delete reports true; a false delete returns normally and changes nothing; on a live cluster a true delete returns normally and the index drops the name's matching documents; errors propagate unchanged and a deleted row stays deleted |
| Storage.StorageService.Add | src/Service/StorageService.php:35-58 | the new tables and cluster, the status and the calls made are those of `AddSpec` |
| Storage.StorageService.Remove | src/Service/StorageService.php:70-89 | the new tables and cluster, the status and the calls made are those of `RemoveSpec` |
| Storage.StorageService.List | src/Service/StorageService.php:98-111 | an unknown type fails; otherwise one entry per row fetched by name iff the name is non-empty (else all rows), same order, each the row's listing entry |
| Storage.StorageService.ProcessItems | src/Service/StorageService.php:120-135 | one listing entry per entity, same count and order |
| Storage.StorageService.SearchByName | src/Service/StorageService.php:143-146 | the search is delegated unchanged: cluster effect and answer are those of the index service's search |

## Left out

- Globals.Value: holds only null, strings and numbers. Booleans, arrays and nested objects cannot be represented. PHP would coerce `true` in kilograms to 1000 grams; items read from an import file can carry such values.
- NumericStrings.ParseNumeral: recognises an optional sign, decimal digits and at most one decimal point. PHP also accepts surrounding whitespace, exponents (`"1e3"`) and, with a warning, leading-numeric strings such as `"2abc"`. The model treats those as type errors.
- The type error that PHP raises inside the repository write for an unusable name or quantity is not caught by `catch (Exception $e)`. The model reports every failed write as a rethrown exception with the same message.
- The entity classes are not part of this model. The setters' parameter types, and hence any truncation of the quantity to an integer, are not modelled.
- Floating point: quantities are exact reals. IEEE rounding and PHP's int/float coercion are not modelled. Neither is the truncation by the integer `quantity` column.
- Repositories.Repository.FindByNameSpec: the name match is case-sensitive. The database's `LIKE` follows its collation, which is not modelled.
- Repositories.Repository.FindByNameSpec: `%` and `_` in the name are matched literally. In the `LIKE` pattern they are wildcards (`%` matches any run of characters, `_` any one character).
- Repositories.Repository.FindAllSpec: rows come back in ascending id order. The database promises no order.
- Repositories.Repository.FindByNameSpec: rows come back in ascending id order. The query has no ordering clause, so the database promises none.
- The database's unique index on names is not modelled. The database's own failures are a `StoreReply` parameter.
- The repositories' `update` method is not part of this model, since the coordinator never calls it.
- The search engine itself is a parameter: its wildcard matching and the hits a search returns. `Elasticsearch.SearchReturnsStoredDocuments` states what follows when those hits are stored documents.
- The only client failure modelled is an unreachable cluster. Other client exceptions are not part of this model.
- Validation.IsValidType: compares values strictly. PHP's loose `in_array` comparison, which would also accept `true`, is not modelled.
- The Symfony validator context is reduced to the list of violations it collects.
- Request validation, the HTTP controller, the JSON response envelope, the file-import command, the migrations and dependency injection are not part of this model.
