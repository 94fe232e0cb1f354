/** The beer record in its two shapes -- the storage entity and the caller-facing
    DTO -- the field-copy mapper between them, and the typed outcomes of the
    stock service. */
module Beers {

  datatype Option<+T> = None | Some(value: T)

  /** The storage entity. `id` is absent until the table assigns one; `brand`
      and `beerType` are pass-through fields that the service never inspects. */
  datatype Beer = Beer(id: Option<int>, name: string, brand: string,
                       max: int, quantity: int, beerType: string)

  /** The caller-facing shape of a beer: the same fields as the entity. */
  datatype BeerDTO = BeerDTO(id: Option<int>, name: string, brand: string,
                             max: int, quantity: int, beerType: string)

  /** Entity to DTO, one field at a time. */
  function ToDTO(b: Beer): (d: BeerDTO)
  {
    BeerDTO(b.id, b.name, b.brand, b.max, b.quantity, b.beerType)
  }

  /** DTO to entity. The copy loses nothing: mapping back gives the input. */
  function ToModel(d: BeerDTO): (b: Beer)
    ensures ToDTO(b) == d
  {
    Beer(d.id, d.name, d.brand, d.max, d.quantity, d.beerType)
  }

  /** The other direction of the round trip: an entity survives ToDTO then ToModel. */
  lemma ModelRoundTrip(b: Beer)
    ensures ToModel(ToDTO(b)) == b
  {
  }

  /** What a not-found failure was looking for: a name or an id. */
  datatype Key = ByName(name: string) | ById(id: int)

  /** The outcome of a service call: a value, or one of the three typed failures
      the service raises as exceptions. */
  datatype Result<+T> =
    | Ok(value: T)
    | AlreadyRegistered(name: string)
    | NotFound(key: Key)
    | StockExceeded(beerId: int, amount: int)
  {
    /** Passes a failure on unchanged under another value type. */
    function Propagate<U>(): (r: Result<U>)
      requires !Ok?
    {
      match this
      case AlreadyRegistered(n) => AlreadyRegistered(n)
      case NotFound(k) => NotFound(k)
      case StockExceeded(i, a) => StockExceeded(i, a)
    }
  }
}
