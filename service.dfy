/** The stock service: the business rules enforced in front of the table --
    no duplicate names, typed failures for missing beers, and a stock ceiling
    checked before anything is written. */
module Service {
  import opened Beers
  import opened Repository

  class BeerService {
    /** The repository's table; the only state the service reads or writes. */
    var repo: Table

    /** The table is well formed and, because every write goes through the
        service's checks, no two beers share a name. */
    ghost predicate Valid()
      reads this
    {
      WellFormed(repo) && NamesDistinct(repo.rows)
    }

    constructor ()
      ensures Valid() && repo == Table([], 1)
    {
      repo := Table([], 1);
    }

    /** Fails with AlreadyRegistered exactly when some stored beer has the name. */
    method VerifyIfIsAlreadyRegistered(name: string) returns (r: Result<()>)
      ensures r.Ok? <==> !HasName(repo.rows, name)
      ensures !r.Ok? ==> r == AlreadyRegistered(name)
    {
      var found := Repository.FindByName(repo, name);
      if found.Some? {
        return AlreadyRegistered(name);
      }
      return Ok(());
    }

    /** The stored beer with the id, or NotFound(id). */
    method VerifyIfExists(id: int) returns (r: Result<Beer>)
      ensures r.Ok? <==> HasId(repo.rows, id)
      ensures r.Ok? ==> r.value in repo.rows && r.value.id == Some(id)
      ensures !r.Ok? ==> r == NotFound(ById(id))
    {
      var found := FindById(repo, id);
      if found.None? {
        return NotFound(ById(id));
      }
      return Ok(found.value);
    }

    /** Registers a beer under an unused name and returns it as stored, with its id.
        A taken name fails with AlreadyRegistered and writes nothing. */
    method CreateBeer(dto: BeerDTO) returns (r: Result<BeerDTO>)
      requires Valid()
      modifies this
      ensures Valid()
      ensures r.Ok? <==> !HasName(old(repo.rows), dto.name)
      ensures !r.Ok? ==> r == AlreadyRegistered(dto.name) && repo == old(repo)
      ensures r.Ok? ==> r.value.id.Some? && r.value == dto.(id := r.value.id)
      ensures r.Ok? ==> Repository.FindByName(repo, dto.name) == Some(ToModel(r.value))
      ensures r.Ok? && !Overwrites(old(repo), ToModel(dto)) ==>
        repo.rows == old(repo.rows) + [ToModel(r.value)] && r.value.id == Some(old(repo.nextId))
      ensures r.Ok? && Overwrites(old(repo), ToModel(dto)) ==>
        && |repo.rows| == |old(repo.rows)|
        && forall i :: 0 <= i < |repo.rows| ==>
             repo.rows[i] == if old(repo.rows[i]).id == dto.id then ToModel(dto) else old(repo.rows[i])
      ensures r.Ok? ==>
        repo.nextId == old(repo.nextId) + if Overwrites(old(repo), ToModel(dto)) then 0 else 1
    {
      var check := VerifyIfIsAlreadyRegistered(dto.name);
      if !check.Ok? {
        return check.Propagate();
      }
      var beer := ToModel(dto);
      SaveKeepsNamesDistinct(repo, beer);
      SavedIsFoundByName(repo, beer);
      var saved := Save(repo, beer);
      repo := saved.table;
      return Ok(ToDTO(saved.beer));
    }

    /** The stored beer with exactly that name, or NotFound(name). */
    method FindByName(name: string) returns (r: Result<BeerDTO>)
      ensures r.Ok? <==> HasName(repo.rows, name)
      ensures r.Ok? ==> exists i :: 0 <= i < |repo.rows| && repo.rows[i].name == name && r.value == ToDTO(repo.rows[i])
      ensures !r.Ok? ==> r == NotFound(ByName(name))
    {
      var found := Repository.FindByName(repo, name);
      if found.None? {
        return NotFound(ByName(name));
      }
      return Ok(ToDTO(found.value));
    }

    /** Every stored beer in the table's order, mapped to its DTO. */
    method ListAll() returns (r: seq<BeerDTO>)
      ensures |r| == |repo.rows|
      ensures forall i :: 0 <= i < |r| ==> ToModel(r[i]) == repo.rows[i]
    {
      var rows := repo.rows;
      r := seq(|rows|, i requires 0 <= i < |rows| => ToDTO(rows[i]));
    }

    /** Removes the beer with the id, keeping all others in order; a missing id
        fails with NotFound(id) and removes nothing. */
    method DeleteById(id: int) returns (r: Result<()>)
      requires Valid()
      modifies this
      ensures Valid()
      ensures r.Ok? <==> HasId(old(repo.rows), id)
      ensures !r.Ok? ==> r == NotFound(ById(id)) && repo == old(repo)
      ensures r.Ok? ==> repo == Repository.DeleteById(old(repo), id)
      ensures !HasId(repo.rows, id)
    {
      var check := VerifyIfExists(id);
      if !check.Ok? {
        return check.Propagate();
      }
      DeleteKeepsNamesDistinct(repo, id);
      repo := Repository.DeleteById(repo, id);
      return Ok(());
    }

    /** Adds `quantity` to the stock of the beer with the id when the sum stays
        within its max (inclusive); otherwise fails with StockExceeded before
        any write. A missing id fails with NotFound(id). */
    method Increment(id: int, quantity: int) returns (r: Result<BeerDTO>)
      requires Valid()
      modifies this
      ensures Valid()
      ensures !HasId(old(repo.rows), id) ==> r == NotFound(ById(id)) && repo == old(repo)
      ensures forall i :: 0 <= i < |old(repo.rows)| && old(repo.rows[i]).id == Some(id) ==>
        var current := old(repo.rows[i]);
        var updated := current.(quantity := current.quantity + quantity);
        && (r.Ok? <==> current.quantity + quantity <= current.max)
        && (r.Ok? ==> r.value == ToDTO(updated) && repo.rows == old(repo.rows)[i := updated])
        && (!r.Ok? ==> r == StockExceeded(id, quantity) && repo == old(repo))
      ensures r.Ok? ==> r.value.quantity <= r.value.max
      ensures repo.nextId == old(repo.nextId)
    {
      var found := VerifyIfExists(id);
      if !found.Ok? {
        return found.Propagate();
      }
      var beer := found.value;
      var quantityAfterIncrement := quantity + beer.quantity;
      if quantityAfterIncrement <= beer.max {
        beer := beer.(quantity := beer.quantity + quantity);
        SaveKeepsNamesDistinct(repo, beer);
        var saved := Save(repo, beer);
        repo := saved.table;
        return Ok(ToDTO(saved.beer));
      }
      return StockExceeded(id, quantity);
    }
  }

  /** Java's 32-bit `int` addition: the exact sum wrapped into the int range. */
  function Int32Add(a: int, b: int): (r: int)
    ensures -0x8000_0000 <= r < 0x8000_0000
    ensures (r - (a + b)) % 0x1_0000_0000 == 0
    ensures -0x8000_0000 <= a + b < 0x8000_0000 ==> r == a + b
  {
    (a + b + 0x8000_0000) % 0x1_0000_0000 - 0x8000_0000
  }

  /** The stock check of increment as BeerService computes it, with the sum
      taken in 32-bit arithmetic. It agrees with the unbounded check whenever
      the true sum fits in an int. */
  predicate StockCheckAsWritten(current: int, amount: int, max: int): (ok: bool)
    ensures -0x8000_0000 <= current + amount < 0x8000_0000 ==> (ok <==> current + amount <= max)
  {
    Int32Add(amount, current) <= max
  }

  /** With 10 of 50 in stock, an increment of 2147483647 wraps the sum to a
      negative number, passes the check, and would store a quantity far below
      the current one. The unbounded check that Increment uses refuses it. */
  lemma OverflowPassesStockCheck()
    ensures StockCheckAsWritten(10, 0x7FFF_FFFF, 50)
    ensures Int32Add(10, 0x7FFF_FFFF) < 10
    ensures !(10 + 0x7FFF_FFFF <= 50)
  {
  }

  /** A client of the service, written against the contracts above: a beer
      with 10 of 50 in stock takes 10 more, refuses 40 more (20 + 40 > 50) and
      keeps 20, then takes exactly the 30 that fill it. */
  method IncrementScenario()
  {
    var service := new BeerService();
    var created := service.CreateBeer(BeerDTO(None, "Skol", "Ambev", 50, 10, "LAGER"));
    var id := created.value.id.value;
    assert service.repo.rows == [Beer(Some(id), "Skol", "Ambev", 50, 10, "LAGER")];

    var added := service.Increment(id, 10);
    assert added.Ok? && added.value.quantity == 20;
    assert service.repo.rows == [Beer(Some(id), "Skol", "Ambev", 50, 20, "LAGER")];
    assert service.repo.rows[0].id == Some(id);

    var exceeded := service.Increment(id, 40);
    assert exceeded == StockExceeded(id, 40);
    assert service.repo.rows == [Beer(Some(id), "Skol", "Ambev", 50, 20, "LAGER")];
    assert service.repo.rows[0].id == Some(id);

    var full := service.Increment(id, 30);
    assert full.Ok? && full.value.quantity == 50;
  }

  /** A second client: a taken name is refused, a deleted beer is gone from
      every lookup, and deleting it again fails. */
  method DeleteScenario()
  {
    var service := new BeerService();
    var created := service.CreateBeer(BeerDTO(None, "Skol", "Ambev", 50, 10, "LAGER"));
    var id := created.value.id.value;

    var again := service.CreateBeer(BeerDTO(None, "Skol", "Other", 20, 0, "ALE"));
    assert again == AlreadyRegistered("Skol");

    var found := service.FindByName("Skol");
    assert found == created;

    var deleted := service.DeleteById(id);
    assert deleted.Ok?;
    var deletedAgain := service.DeleteById(id);
    assert deletedAgain == NotFound(ById(id));

    var missing := service.Increment(id, 1);
    assert missing == NotFound(ById(id));

    var all := service.ListAll();
    assert all == [];
  }
}
