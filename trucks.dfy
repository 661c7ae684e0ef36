/** The record type shared by every component of the inventory: a truck, its
    manufacturer enumeration, and the two lookups by id (`find` and
    `findIndex` over the collection) that the form and the app use. */
module Trucks {

  datatype Option<+T> = None | Some(value: T)

  /** The fixed manufacturer enumeration. */
  datatype Maker = Belaz | Caterpillar | Komatsu

  /** A calendar date. Host date semantics (time of day, time zones) are not modelled. */
  datatype Date = Date(year: int, month: int, day: int)

  /** A truck as held in memory. The make is nullable in the record type;
      only the form's `required` rule keeps null out of submitted records. */
  datatype Truck = Truck(make: Option<Maker>, id: string, isAvailable: bool, purchaseDate: Date)

  /** A truck as it comes back from storage: every field as stored, the date still text. */
  datatype StoredTruck = StoredTruck(make: Option<Maker>, id: string, isAvailable: bool, purchaseDate: string)

  /** Some truck of `s` has id `id`. */
  ghost predicate HasId(s: seq<Truck>, id: string) {
    exists j :: 0 <= j < |s| && s[j].id == id
  }

  /** No two trucks of `s` share an id. */
  ghost predicate DistinctIds(s: seq<Truck>) {
    forall i, j :: 0 <= i < j < |s| ==> s[i].id != s[j].id
  }

  /** `s.findIndex(t => t.id === id)`: the first position holding `id`, or -1. */
  function FindIndex(s: seq<Truck>, id: string): (r: int)
    ensures -1 <= r < |s|
    ensures r == -1 <==> !HasId(s, id)
    ensures 0 <= r ==> s[r].id == id && forall j :: 0 <= j < r ==> s[j].id != id
  {
    if s == [] then -1
    else if s[0].id == id then 0
    else
      var k := FindIndex(s[1..], id);
      assert forall j :: 1 <= j < |s| ==> s[j] == s[1..][j - 1];
      if k == -1 then -1 else k + 1
  }

  /** `s.find(t => t.id === id)`: the first truck holding `id`, if any. */
  function Find(s: seq<Truck>, id: string): (r: Option<Truck>)
    ensures r.None? <==> !HasId(s, id)
    ensures r.Some? ==> r.value == s[FindIndex(s, id)]
  {
    if s == [] then None
    else if s[0].id == id then Some(s[0])
    else Find(s[1..], id)
  }
}
