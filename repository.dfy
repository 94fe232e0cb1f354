/** The storage the service delegates to, as an in-memory table: the stored
    rows in iteration order and the next id the id generator will hand out.
    Its operations are find-by-id, find-by-name, save and delete-by-id. */
module Repository {
  import opened Beers

  datatype Table = Table(rows: seq<Beer>, nextId: int)

  predicate HasId(rows: seq<Beer>, id: int)
  {
    exists i :: 0 <= i < |rows| && rows[i].id == Some(id)
  }

  predicate HasName(rows: seq<Beer>, name: string)
  {
    exists i :: 0 <= i < |rows| && rows[i].name == name
  }

  /** Every stored row carries an id from the generator, and no two rows share one. */
  predicate WellFormed(t: Table)
  {
    && 1 <= t.nextId
    && (forall i :: 0 <= i < |t.rows| ==> t.rows[i].id.Some? && 1 <= t.rows[i].id.value < t.nextId)
    && (forall i, j :: 0 <= i < j < |t.rows| ==> t.rows[i].id != t.rows[j].id)
  }

  /** No two stored rows share a name. The table does not enforce this; the service does. */
  predicate NamesDistinct(rows: seq<Beer>)
  {
    forall i, j :: 0 <= i < j < |rows| ==> rows[i].name != rows[j].name
  }

  /** The position of the first row with the given id, if any. */
  function IndexOfId(rows: seq<Beer>, id: int): (r: Option<nat>)
    ensures r.None? <==> !HasId(rows, id)
    ensures r.Some? ==> r.value < |rows| && rows[r.value].id == Some(id)
    ensures r.Some? ==> forall j :: 0 <= j < r.value ==> rows[j].id != Some(id)
  {
    if rows == [] then None
    else if rows[0].id == Some(id) then Some(0)
    else
      match IndexOfId(rows[1..], id)
      case None =>
        assert forall i :: 1 <= i < |rows| ==> rows[i] == rows[1..][i - 1];
        None
      case Some(k) => Some(k + 1)
  }

  /** The position of the first row with the given name, if any. */
  function IndexOfName(rows: seq<Beer>, name: string): (r: Option<nat>)
    ensures r.None? <==> !HasName(rows, name)
    ensures r.Some? ==> r.value < |rows| && rows[r.value].name == name
    ensures r.Some? ==> forall j :: 0 <= j < r.value ==> rows[j].name != name
  {
    if rows == [] then None
    else if rows[0].name == name then Some(0)
    else
      match IndexOfName(rows[1..], name)
      case None =>
        assert forall i :: 1 <= i < |rows| ==> rows[i] == rows[1..][i - 1];
        None
      case Some(k) => Some(k + 1)
  }

  /** findById: the stored row with that id, or nothing. */
  function FindById(t: Table, id: int): (r: Option<Beer>)
    ensures r.Some? <==> HasId(t.rows, id)
    ensures r.Some? ==> r.value in t.rows && r.value.id == Some(id)
  {
    match IndexOfId(t.rows, id)
    case None => None
    case Some(i) => Some(t.rows[i])
  }

  /** findByName: the first stored row with exactly that name, or nothing. */
  function FindByName(t: Table, name: string): (r: Option<Beer>)
    ensures r.Some? <==> HasName(t.rows, name)
    ensures r.Some? ==> r.value in t.rows && r.value.name == name
  {
    match IndexOfName(t.rows, name)
    case None => None
    case Some(i) => Some(t.rows[i])
  }

  /** Whether saving `b` overwrites a stored row rather than inserting a new one. */
  predicate Overwrites(t: Table, b: Beer)
  {
    b.id.Some? && HasId(t.rows, b.id.value)
  }

  datatype Saved = Saved(table: Table, beer: Beer)

  /** save: a beer whose id is stored overwrites that row in place; any other
      beer (no id, or an id the table does not hold) is appended under the next
      generated id. Returns the new table and the beer as stored. */
  function Save(t: Table, b: Beer): (s: Saved)
    requires WellFormed(t)
    ensures WellFormed(s.table)
    ensures s.beer == if Overwrites(t, b) then b else b.(id := Some(t.nextId))
    ensures Overwrites(t, b) ==>
      && s.table.nextId == t.nextId
      && |s.table.rows| == |t.rows|
      && forall i :: 0 <= i < |t.rows| ==>
           s.table.rows[i] == if t.rows[i].id == b.id then b else t.rows[i]
    ensures !Overwrites(t, b) ==> s.table == Table(t.rows + [s.beer], t.nextId + 1)
  {
    if b.id.Some? && IndexOfId(t.rows, b.id.value).Some? then
      var i := IndexOfId(t.rows, b.id.value).value;
      Saved(Table(t.rows[i := b], t.nextId), b)
    else
      var stored := b.(id := Some(t.nextId));
      Saved(Table(t.rows + [stored], t.nextId + 1), stored)
  }

  /** deleteById: removes the row with that id, keeping the others in order; a
      missing id leaves the table as it is. */
  function DeleteById(t: Table, id: int): (r: Table)
    requires WellFormed(t)
    ensures WellFormed(r) && r.nextId == t.nextId
    ensures !HasId(r.rows, id)
    ensures forall b :: b in r.rows <==> b in t.rows && b.id != Some(id)
    ensures HasId(t.rows, id) ==>
      exists i :: 0 <= i < |t.rows| && t.rows[i].id == Some(id) && r.rows == t.rows[..i] + t.rows[i + 1..]
    ensures !HasId(t.rows, id) ==> r == t
  {
    match IndexOfId(t.rows, id)
    case None => t
    case Some(i) =>
      var rest := t.rows[..i] + t.rows[i + 1..];
      assert forall j :: 0 <= j < |rest| ==> rest[j] == t.rows[if j < i then j else j + 1];
      Table(rest, t.nextId)
  }

  /** Saving a beer whose name is unused, or belongs only to the row it
      overwrites, keeps the stored names distinct. */
  lemma SaveKeepsNamesDistinct(t: Table, b: Beer)
    requires WellFormed(t) && NamesDistinct(t.rows)
    requires forall i :: 0 <= i < |t.rows| && t.rows[i].name == b.name ==> t.rows[i].id == b.id
    ensures NamesDistinct(Save(t, b).table.rows)
  {
  }

  /** Deleting a row keeps the stored names distinct. */
  lemma DeleteKeepsNamesDistinct(t: Table, id: int)
    requires WellFormed(t) && NamesDistinct(t.rows)
    ensures NamesDistinct(DeleteById(t, id).rows)
  {
  }

  /** Once saved, a beer whose name was unused (or only its own) is what
      findByName returns for that name. */
  lemma SavedIsFoundByName(t: Table, b: Beer)
    requires WellFormed(t) && NamesDistinct(t.rows)
    requires forall i :: 0 <= i < |t.rows| && t.rows[i].name == b.name ==> t.rows[i].id == b.id
    ensures FindByName(Save(t, b).table, b.name) == Some(Save(t, b).beer)
  {
    var s := Save(t, b);
    SaveKeepsNamesDistinct(t, b);
    var k :| 0 <= k < |s.table.rows| && s.table.rows[k] == s.beer;
    var found := FindByName(s.table, b.name).value;
    var m :| 0 <= m < |s.table.rows| && s.table.rows[m] == found;
    assert m == k;
  }
}
