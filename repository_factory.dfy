/** Dispatch from an item type to the repository of that category. */
module Factory {
  import opened Globals
  import opened Repositories

  class RepositoryFactory {
    const fruitRepo: Repository
    const vegetableRepo: Repository

    constructor (fruitRepo: Repository, vegetableRepo: Repository)
      ensures this.fruitRepo == fruitRepo && this.vegetableRepo == vegetableRepo
    {
      this.fruitRepo := fruitRepo;
      this.vegetableRepo := vegetableRepo;
    }

    /** Each injected repository serves the category it is injected for. */
    ghost predicate Valid() {
      fruitRepo.category == Fruit && vegetableRepo.category == Vegetable
    }

    /** The strict dispatch: exactly `"fruit"` and `"vegetable"` select a
        repository, always the same injected instance; every other value
        (null, the empty string, other spellings, numbers) is an invalid
        item type.  No state is read or changed. */
    function GetRepository(itemType: Value): (r: Result<Repository>)
      ensures r.Ok? <==> (itemType == Str(FRUIT) || itemType == Str(VEGETABLE))
      ensures r.Err? ==> r.error == InvalidItemType
      ensures itemType == Str(FRUIT) ==> r == Ok(fruitRepo)
      ensures itemType == Str(VEGETABLE) ==> r == Ok(vegetableRepo)
    {
      match CategoryOf(itemType)
      case None => Err(InvalidItemType)
      case Some(Fruit) => Ok(fruitRepo)
      case Some(Vegetable) => Ok(vegetableRepo)
    }

    /** The selected repository serves the category the type names, so
        the two accepted types never share a repository. */
    lemma RoutesByCategory(itemType: Value)
      requires Valid()
      ensures GetRepository(itemType).Ok? <==> CategoryOf(itemType).Some?
      ensures GetRepository(itemType).Ok? ==> GetRepository(itemType).value.category == CategoryOf(itemType).value
      ensures GetRepository(Str(FRUIT)).value != GetRepository(Str(VEGETABLE)).value
    {
    }
  }
}
