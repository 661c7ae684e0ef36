/** The create/edit form: its default values, its per-field validation rules
    (make required; id required, matching the id pattern and unique; date
    required) and the collection updaters its submit handler applies. */
module TruckForm {
  import opened Trucks

  // ---------------------------------------------------------------------------
  // The id pattern ^[A-Za-z]{3}[0-9]{3}$
  // ---------------------------------------------------------------------------

  datatype CharClass = AsciiLetter | AsciiDigit

  /** A character class repeated exactly `times` times, as in `[0-9]{3}`. */
  datatype Repeat = Repeat(k: CharClass, times: nat)

  predicate InClass(c: char, k: CharClass) {
    match k
    case AsciiLetter => 'A' <= c <= 'Z' || 'a' <= c <= 'z'
    case AsciiDigit => '0' <= c <= '9'
  }

  predicate AllIn(s: string, k: CharClass) {
    forall i :: 0 <= i < |s| ==> InClass(s[i], k)
  }

  /** Whether the whole of `s` matches the anchored pattern `p`. */
  predicate Matches(p: seq<Repeat>, s: string)
    decreases |p|
  {
    if p == [] then s == []
    else p[0].times <= |s| && AllIn(s[..p[0].times], p[0].k) && Matches(p[1..], s[p[0].times..])
  }

  /** The id field's `pattern` rule. */
  const IdRegex: seq<Repeat> := [Repeat(AsciiLetter, 3), Repeat(AsciiDigit, 3)]

  predicate IsIdFormat(id: string) {
    Matches(IdRegex, id)
  }

  /** The pattern accepts exactly six characters: three ASCII letters of
      either case, then three ASCII digits. */
  lemma IdFormatExactly(id: string)
    ensures IsIdFormat(id) <==>
      |id| == 6
      && (forall i :: 0 <= i < 3 ==> InClass(id[i], AsciiLetter))
      && (forall i :: 3 <= i < 6 ==> InClass(id[i], AsciiDigit))
  {
  }

  /** Lower-case letters are accepted, and the fallback id of the app passes. */
  lemma IdFormatExamples()
    ensures IsIdFormat("ABC123") && IsIdFormat("xyz999") && IsIdFormat("abc123")
    ensures !IsIdFormat("") && !IsIdFormat("AB1234") && !IsIdFormat("ABC12") && !IsIdFormat("ABC1234")
  {
    IdFormatExactly("ABC123");
    IdFormatExactly("xyz999");
    IdFormatExactly("abc123");
    IdFormatExactly("");
    IdFormatExactly("AB1234");
    assert "AB1234"[2] == '1';
    IdFormatExactly("ABC12");
    IdFormatExactly("ABC1234");
  }

  // ---------------------------------------------------------------------------
  // The `unique` validator
  // ---------------------------------------------------------------------------

  /** `isUnique`: while a truck is being edited the rule is skipped entirely
      (it does not merely exclude the edited truck); otherwise the id must
      not be held by any truck of the collection. */
  function IsUnique(trucks: seq<Truck>, editing: Option<Truck>, id: string): (r: bool)
    ensures editing.Some? ==> r
    ensures editing.None? ==> (r <==> !HasId(trucks, id))
  {
    if editing.Some? then true else Find(trucks, id).None?
  }

  // ---------------------------------------------------------------------------
  // Form values and validation
  // ---------------------------------------------------------------------------

  /** The values the form holds; the date picker may be cleared, so the date is optional. */
  datatype FormValues = FormValues(make: Option<Maker>, id: string, isAvailable: bool, purchaseDate: Option<Date>)

  /** What the form shows: empty create values, or the edited truck's fields. */
  function InitialValues(editing: Option<Truck>, now: Date): (v: FormValues)
    ensures editing.None? ==> v.make.None? && v.id == "" && !v.isAvailable && v.purchaseDate == Some(now)
    ensures editing.Some? ==> v.purchaseDate.Some? && AsTruck(v) == editing.value
  {
    match editing
    case None => FormValues(None, "", false, Some(now))
    case Some(t) => FormValues(t.make, t.id, t.isAvailable, Some(t.purchaseDate))
  }

  /** Why the id field is refused; the form reports the first failing rule. */
  datatype IdError = Required | PatternMismatch | Occupied

  datatype FormErrors = FormErrors(make: bool, id: Option<IdError>, purchaseDate: bool)

  predicate NoErrors(e: FormErrors) {
    !e.make && e.id.None? && !e.purchaseDate
  }

  /** The id field's rules in the order they are tried: required, pattern, unique. */
  function IdFieldError(trucks: seq<Truck>, editing: Option<Truck>, id: string): Option<IdError> {
    if id == "" then Some(Required)
    else if !IsIdFormat(id) then Some(PatternMismatch)
    else if !IsUnique(trucks, editing, id) then Some(Occupied)
    else None
  }

  function Validate(trucks: seq<Truck>, editing: Option<Truck>, v: FormValues): FormErrors {
    FormErrors(v.make.None?, IdFieldError(trucks, editing, v.id), v.purchaseDate.None?)
  }

  /** A submission passes exactly when the make is chosen, the id is well
      formed, a date is present and, in create mode only, the id is free. */
  lemma ValidateAcceptsExactly(trucks: seq<Truck>, editing: Option<Truck>, v: FormValues)
    ensures NoErrors(Validate(trucks, editing, v)) <==>
      && v.make.Some?
      && IsIdFormat(v.id)
      && v.purchaseDate.Some?
      && (editing.None? ==> !HasId(trucks, v.id))
  {
  }

  /** The message shown under the id field: a free but malformed id gets the
      format message, a well-formed id held by another truck the occupied one. */
  lemma IdErrorKinds(trucks: seq<Truck>, id: string)
    ensures IdFieldError(trucks, None, id) == Some(Required) <==> id == ""
    ensures IdFieldError(trucks, None, id) == Some(PatternMismatch) <==> id != "" && !IsIdFormat(id)
    ensures IdFieldError(trucks, None, id) == Some(Occupied) <==> IsIdFormat(id) && HasId(trucks, id)
  {
  }

  /** An untouched create form is refused: no make, and the id is missing. */
  lemma UntouchedCreateFormRefused(trucks: seq<Truck>, now: Date)
    ensures Validate(trucks, None, InitialValues(None, now)) == FormErrors(true, Some(Required), false)
  {
  }

  // ---------------------------------------------------------------------------
  // The collection updaters
  // ---------------------------------------------------------------------------

  /** The record a passing submission carries. */
  function AsTruck(v: FormValues): Truck
    requires v.purchaseDate.Some?
  {
    Truck(v.make, v.id, v.isAvailable, v.purchaseDate.value)
  }

  /** Create mode: `[...prev, t]`. */
  function Insert(prev: seq<Truck>, t: Truck): (r: seq<Truck>)
    ensures |r| == |prev| + 1 && r[|prev|] == t
    ensures forall j :: 0 <= j < |prev| ==> r[j] == prev[j]
  {
    prev + [t]
  }

  /** Inserting an id no truck holds keeps the ids pairwise distinct. */
  lemma InsertKeepsIdsDistinct(prev: seq<Truck>, t: Truck)
    requires DistinctIds(prev)
    requires IsUnique(prev, None, t.id)
    ensures DistinctIds(Insert(prev, t))
  {
  }

  /** `Array.prototype.slice(start, end)`: a negative position counts from the
      end, and positions are clamped to the array. */
  function JsSlice(s: seq<Truck>, start: int, end: int): (r: seq<Truck>)
    ensures |r| <= |s|
    ensures 0 <= start <= end <= |s| ==> r == s[start..end]
    ensures start == 0 && end == -1 && 0 < |s| ==> r == s[..|s| - 1]
    ensures |s| <= start ==> r == []
  {
    var from := Clamp(start, |s|);
    var to := Clamp(end, |s|);
    if from < to then s[from..to] else []
  }

  /** A slice position resolved against length `n`: negative counts from the end, then clamped to `0..n`. */
  function Clamp(k: int, n: nat): (r: nat)
    ensures r <= n
    ensures 0 <= k <= n ==> r == k
    ensures k < 0 && 0 <= n + k ==> r == n + k
  {
    if k < 0 then (if n + k < 0 then 0 else n + k)
    else if k > n then n
    else k
  }

  /** Edit mode as written: splice `t` in at `prev.findIndex(x => x.id === originalId)`,
      with no guard for the index -1. */
  function UpdateAsWritten(prev: seq<Truck>, originalId: string, t: Truck): seq<Truck> {
    var i := FindIndex(prev, originalId);
    JsSlice(prev, 0, i) + [t] + JsSlice(prev, i + 1, |prev|)
  }

  /** When the original id is absent, the written updater keeps the whole
      collection after all but its last element and `t`, doubling its length. */
  lemma UpdateAsWrittenMissingId(prev: seq<Truck>, originalId: string, t: Truck)
    requires !HasId(prev, originalId)
    ensures |prev| == 0 ==> UpdateAsWritten(prev, originalId, t) == [t]
    ensures 0 < |prev| ==> UpdateAsWritten(prev, originalId, t) == prev[..|prev| - 1] + [t] + prev
    ensures 0 < |prev| ==> |UpdateAsWritten(prev, originalId, t)| == 2 * |prev|
  {
  }

  /** Edit mode, corrected: replace the first truck with the ORIGINAL id (not
      `t.id`) in place; leave the collection alone when that id is absent. */
  function Update(prev: seq<Truck>, originalId: string, t: Truck): (r: seq<Truck>)
    ensures |r| == |prev|
    ensures !HasId(prev, originalId) ==> r == prev
    ensures HasId(prev, originalId) ==>
      var i := FindIndex(prev, originalId);
      r[i] == t && forall j :: 0 <= j < |prev| && j != i ==> r[j] == prev[j]
  {
    var i := FindIndex(prev, originalId);
    if i < 0 then prev else prev[..i] + [t] + prev[i + 1..]
  }

  /** Whenever the original id is present, the written updater and the corrected one agree. */
  lemma UpdateAsWrittenAgreesWhenFound(prev: seq<Truck>, originalId: string, t: Truck)
    requires HasId(prev, originalId)
    ensures UpdateAsWritten(prev, originalId, t) == Update(prev, originalId, t)
  {
  }

  // ---------------------------------------------------------------------------
  // Submission
  // ---------------------------------------------------------------------------

  datatype Submission = Submission(errors: FormErrors, trucks: seq<Truck>)

  /** `handleSubmit(onSubmit)`: validate every field; on success insert (create
      mode) or update the edited truck by its original id (edit mode). */
  function Submit(trucks: seq<Truck>, editing: Option<Truck>, v: FormValues): Submission {
    var errors := Validate(trucks, editing, v);
    if !NoErrors(errors) then Submission(errors, trucks)
    else if editing.Some? then Submission(errors, Update(trucks, editing.value.id, AsTruck(v)))
    else Submission(errors, Insert(trucks, AsTruck(v)))
  }

  /** A refused submission leaves the collection as it was; a missing make or
      an empty id is always refused. */
  lemma RefusedSubmissionKeepsTrucks(trucks: seq<Truck>, editing: Option<Truck>, v: FormValues)
    ensures v.make.None? || v.id == "" ==> !NoErrors(Submit(trucks, editing, v).errors)
    ensures !NoErrors(Submit(trucks, editing, v).errors) ==> Submit(trucks, editing, v).trucks == trucks
  {
  }

  /** A passing create-mode submission appends exactly one truck and keeps the ids distinct. */
  lemma CreateSubmissionKeepsIdsDistinct(trucks: seq<Truck>, v: FormValues)
    requires DistinctIds(trucks)
    ensures DistinctIds(Submit(trucks, None, v).trucks)
    ensures NoErrors(Submit(trucks, None, v).errors) ==> |Submit(trucks, None, v).trucks| == |trucks| + 1
  {
  }

  /** Because uniqueness is skipped while editing, renaming a truck to an id
      that another truck holds is accepted and duplicates that id. */
  lemma EditSubmissionCanDuplicateIds(now: Date)
    ensures
      var a := Truck(Some(Komatsu), "AAA111", true, now);
      var b := Truck(Some(Belaz), "BBB222", false, now);
      var v := FormValues(Some(Komatsu), "BBB222", true, Some(now));
      && DistinctIds([a, b])
      && NoErrors(Submit([a, b], Some(a), v).errors)
      && Submit([a, b], Some(a), v).trucks == [AsTruck(v), b]
      && !DistinctIds(Submit([a, b], Some(a), v).trucks)
  {
    var a := Truck(Some(Komatsu), "AAA111", true, now);
    var b := Truck(Some(Belaz), "BBB222", false, now);
    var v := FormValues(Some(Komatsu), "BBB222", true, Some(now));
    IdFormatExactly("BBB222");
    assert IsIdFormat("BBB222");
    assert NoErrors(Validate([a, b], Some(a), v));
    assert FindIndex([a, b], "AAA111") == 0;
    assert Update([a, b], "AAA111", AsTruck(v)) == [AsTruck(v), b];
    assert [AsTruck(v), b][0].id == [AsTruck(v), b][1].id;
  }

  /** Saving an edit form without changing it leaves the collection as it was. */
  lemma UnchangedEditKeepsTrucks(trucks: seq<Truck>, t: Truck, now: Date)
    requires Find(trucks, t.id) == Some(t)
    requires t.make.Some? && IsIdFormat(t.id)
    ensures NoErrors(Submit(trucks, Some(t), InitialValues(Some(t), now)).errors)
    ensures Submit(trucks, Some(t), InitialValues(Some(t), now)).trucks == trucks
  {
  }
}
