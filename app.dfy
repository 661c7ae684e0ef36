/** The application: loading the collection from storage, the fallback truck
    handed to the edit form, and the component state (the collection, the
    edit selector and the delete dialog) with the handlers that change it. */
module TruckApp {
  import opened Trucks
  import TruckForm
  import TruckList

  // ---------------------------------------------------------------------------
  // Loading and persisting
  // ---------------------------------------------------------------------------

  /** `parseTruckDate`: map over the stored records, rewriting only the date
      through the host's parser `parse` and keeping every other field. */
  function ParseTruckDate(s: seq<StoredTruck>, parse: string -> Date): (r: seq<Truck>)
    ensures |r| == |s|
    ensures forall i :: 0 <= i < |s| ==>
      && r[i].make == s[i].make
      && r[i].id == s[i].id
      && r[i].isAvailable == s[i].isAvailable
      && r[i].purchaseDate == parse(s[i].purchaseDate)
  {
    if s == [] then []
    else
      var t := s[0];
      var rest := ParseTruckDate(s[1..], parse);
      assert forall i :: 1 <= i < |s| ==> s[i] == s[1..][i - 1];
      [Truck(t.make, t.id, t.isAvailable, parse(t.purchaseDate))] + rest
  }

  /** The record shape the collection is stored in: each date written as text
      by the host's formatter `format`, every other field kept. */
  function Persisted(trucks: seq<Truck>, format: Date -> string): (r: seq<StoredTruck>)
    ensures |r| == |trucks|
    ensures forall i :: 0 <= i < |trucks| ==>
      r[i] == StoredTruck(trucks[i].make, trucks[i].id, trucks[i].isAvailable, format(trucks[i].purchaseDate))
  {
    if trucks == [] then []
    else
      var t := trucks[0];
      var rest := Persisted(trucks[1..], format);
      assert forall i :: 1 <= i < |trucks| ==> trucks[i] == trucks[1..][i - 1];
      [StoredTruck(t.make, t.id, t.isAvailable, format(t.purchaseDate))] + rest
  }

  /** Storing the collection and loading it back gives the same collection,
      given that the host parses back whatever date text it wrote. */
  lemma PersistRoundTrip(trucks: seq<Truck>, format: Date -> string, parse: string -> Date)
    requires forall d :: parse(format(d)) == d
    ensures ParseTruckDate(Persisted(trucks, format), parse) == trucks
  {
  }

  /** The collection's value on start-up: the parsed stored records, or empty
      when nothing is stored. */
  function Loaded(stored: Option<seq<StoredTruck>>, parse: string -> Date): (r: seq<Truck>)
    ensures stored.None? ==> r == []
    ensures stored.Some? ==> r == ParseTruckDate(stored.value, parse)
    ensures stored.Some? ==> |r| == |stored.value| && forall i :: 0 <= i < |r| ==>
      r[i] == Truck(stored.value[i].make, stored.value[i].id, stored.value[i].isAvailable, parse(stored.value[i].purchaseDate))
  {
    if stored.Some? then ParseTruckDate(stored.value, parse) else []
  }

  // ---------------------------------------------------------------------------
  // The fallback truck
  // ---------------------------------------------------------------------------

  /** `ensure`: the given truck, or else a fallback Belaz with id "abc123",
      available, bought `now`. */
  function Ensure(x: Option<Truck>, now: Date): (r: Truck)
    ensures x.Some? ==> r == x.value
    ensures x.None? ==> r.make == Some(Belaz) && r.id == "abc123" && r.isAvailable && r.purchaseDate == now
  {
    if x.None? then Truck(Some(Belaz), "abc123", true, now) else x.value
  }

  /** The fallback's own values pass validation in edit mode, so saving the
      fallback form reaches the updater with an id the collection may lack. */
  lemma FallbackFormAccepted(trucks: seq<Truck>, now: Date)
    ensures
      var f := Ensure(None, now);
      TruckForm.NoErrors(TruckForm.Validate(trucks, Some(f), TruckForm.InitialValues(Some(f), now)))
  {
  }

  // ---------------------------------------------------------------------------
  // Component state
  // ---------------------------------------------------------------------------

  /** The edit selector: whether the form edits a truck, and the id it was opened for. */
  datatype Edit = Edit(edit: bool, id: string)

  /** Create mode, the initial selector and the one "Insert new truck" sets. */
  const NotEditing := Edit(false, "")

  /** The truck the form receives for a given collection and selector. */
  function FormTruckFor(trucks: seq<Truck>, e: Edit, now: Date): (r: Option<Truck>)
    ensures !e.edit ==> r == None
    ensures e.edit && HasId(trucks, e.id) ==> r == Some(trucks[FindIndex(trucks, e.id)])
    ensures e.edit && !HasId(trucks, e.id) ==> r == Some(Ensure(None, now))
  {
    if e.edit then Some(Ensure(Find(trucks, e.id), now)) else None
  }

  /** Renaming the edited truck loses the selection: next time the form gets
      the fallback, and saving that unchanged is accepted and, as written,
      doubles the collection. */
  lemma RenameThenSaveAgain(trucks: seq<Truck>, t: Truck, v: TruckForm.FormValues, now: Date)
    requires DistinctIds(trucks)
    requires FormTruckFor(trucks, Edit(true, t.id), now) == Some(t)
    requires TruckForm.NoErrors(TruckForm.Validate(trucks, Some(t), v))
    requires v.id != t.id && v.id != "abc123" && t.id != "abc123"
    requires forall s :: s in trucks ==> s.id != "abc123"
    ensures
      var after := TruckForm.Submit(trucks, Some(t), v).trucks;
      var f := Ensure(None, now);
      && FormTruckFor(after, Edit(true, t.id), now) == Some(f)
      && TruckForm.NoErrors(TruckForm.Submit(after, Some(f), TruckForm.InitialValues(Some(f), now)).errors)
      && |TruckForm.UpdateAsWritten(after, f.id, f)| == 2 * |trucks|
  {
  }

  /** The state the components keep: the collection, the edit selector and the delete dialog. */
  class Inventory {
    var trucks: seq<Truck>
    var editTruck: Edit
    var deleteConfirmation: TruckList.DeleteConfirmation

    /** Start-up: the stored collection (or none), create mode, the dialog closed. */
    constructor (stored: Option<seq<StoredTruck>>, parse: string -> Date)
      ensures trucks == Loaded(stored, parse)
      ensures editTruck == NotEditing && deleteConfirmation == TruckList.Dismissed
    {
      trucks := Loaded(stored, parse);
      editTruck := NotEditing;
      deleteConfirmation := TruckList.Dismissed;
    }

    /** The `truck` the form receives: none in create mode; in edit mode the
        first truck with the selected id, or the fallback when there is none. */
    function FormTruck(now: Date): Option<Truck>
      reads this
    {
      FormTruckFor(trucks, editTruck, now)
    }

    /** "Insert new truck": back to create mode. */
    method InsertNewTruck()
      modifies this
      ensures editTruck == NotEditing
      ensures forall now :: FormTruck(now) == None
      ensures trucks == old(trucks) && deleteConfirmation == old(deleteConfirmation)
    {
      editTruck := NotEditing;
    }

    /** A row's Edit button: select that row's id; with distinct ids the form gets that row. */
    method EditRow(row: nat)
      requires row < |trucks|
      modifies this
      ensures trucks == old(trucks) && deleteConfirmation == old(deleteConfirmation)
      ensures editTruck == Edit(true, trucks[row].id)
      ensures DistinctIds(trucks) ==> forall now :: FormTruck(now) == Some(trucks[row])
    {
      editTruck := Edit(true, trucks[row].id);
      assert HasId(trucks, trucks[row].id);
    }

    /** Save: validate against the current collection and form mode, then
        insert or update; a refused save changes nothing. */
    method Submit(v: TruckForm.FormValues, now: Date) returns (errors: TruckForm.FormErrors)
      modifies this
      ensures errors == TruckForm.Validate(old(trucks), old(FormTruck(now)), v)
      ensures trucks == TruckForm.Submit(old(trucks), old(FormTruck(now)), v).trucks
      ensures !TruckForm.NoErrors(errors) ==> trucks == old(trucks)
      ensures editTruck == old(editTruck) && deleteConfirmation == old(deleteConfirmation)
    {
      var truck := FormTruck(now);
      errors := TruckForm.Validate(trucks, truck, v);
      if TruckForm.NoErrors(errors) {
        var t := TruckForm.AsTruck(v);
        if truck.Some? {
          trucks := TruckForm.Update(trucks, truck.value.id, t);
        } else {
          trucks := TruckForm.Insert(trucks, t);
        }
      }
    }

    /** `handleDelete`: drop every truck with the id. */
    method HandleDelete(id: string)
      modifies this
      ensures trucks == TruckList.Delete(old(trucks), id)
      ensures !HasId(trucks, id)
      ensures editTruck == old(editTruck) && deleteConfirmation == old(deleteConfirmation)
    {
      trucks := TruckList.Delete(trucks, id);
    }

    /** A row's Delete button: open the dialog for that row's id. */
    method ConfirmDeleteRow(row: nat)
      requires row < |trucks|
      modifies this
      ensures trucks == old(trucks) && editTruck == old(editTruck)
      ensures deleteConfirmation == TruckList.DeleteConfirmation(true, trucks[row].id)
    {
      deleteConfirmation := TruckList.DeleteConfirmation(true, trucks[row].id);
    }

    /** Disagree, or closing the dialog: close it; the collection is untouched. */
    method DismissDeleteDialog()
      modifies this
      ensures deleteConfirmation == TruckList.Dismissed
      ensures trucks == old(trucks) && editTruck == old(editTruck)
    {
      deleteConfirmation := TruckList.Dismissed;
    }

    /** Agree: delete exactly the id the dialog was opened for, then close it. */
    method AgreeDelete()
      modifies this
      ensures trucks == TruckList.Delete(old(trucks), old(deleteConfirmation).id)
      ensures deleteConfirmation == TruckList.Dismissed
      ensures editTruck == old(editTruck)
    {
      HandleDelete(deleteConfirmation.id);
      deleteConfirmation := TruckList.Dismissed;
    }
  }
}
