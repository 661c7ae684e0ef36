/** The table of trucks: removal of a truck by id and the state of the
    delete-confirmation dialog. */
module TruckList {
  import opened Trucks

  /** `a` can be obtained from `b` by dropping elements, keeping the order of the rest. */
  ghost predicate IsSubsequence(a: seq<Truck>, b: seq<Truck>)
    decreases |b|
  {
    if a == [] then true
    else if b == [] then false
    else (a[0] == b[0] && IsSubsequence(a[1..], b[1..])) || IsSubsequence(a, b[1..])
  }

  /** `prev.filter(t => t.id !== id)`: every truck with that id goes, and the
      rest keep their original order. */
  function Delete(s: seq<Truck>, id: string): (r: seq<Truck>)
    ensures !HasId(r, id)
    ensures IsSubsequence(r, s)
  {
    if s == [] then []
    else if s[0].id != id then
      var rest := Delete(s[1..], id);
      assert ([s[0]] + rest)[1..] == rest;
      [s[0]] + rest
    else
      Delete(s[1..], id)
  }

  /** Nothing but that id is removed: every other truck keeps its number of occurrences. */
  lemma {:induction false} DeleteKeepsOthers(s: seq<Truck>, id: string)
    ensures forall t: Truck :: t.id != id ==> multiset(Delete(s, id))[t] == multiset(s)[t]
  {
    if s != [] {
      DeleteKeepsOthers(s[1..], id);
      assert s == [s[0]] + s[1..];
    }
  }

  /** Every survivor of a deletion was in the collection. */
  lemma DeleteKeepsOnlyMembers(s: seq<Truck>, id: string)
    ensures forall t: Truck :: t in Delete(s, id) ==> t in s
  {
  }

  /** Deleting an id that no truck holds changes nothing. */
  lemma {:induction false} DeleteAbsentIsIdentity(s: seq<Truck>, id: string)
    requires !HasId(s, id)
    ensures Delete(s, id) == s
  {
    if s != [] {
      assert s[0].id != id;
      DeleteAbsentIsIdentity(s[1..], id);
      assert s == [s[0]] + s[1..];
    }
  }

  /** Deleting the same id twice is the same as deleting it once. */
  lemma DeleteIdempotent(s: seq<Truck>, id: string)
    ensures Delete(Delete(s, id), id) == Delete(s, id)
  {
  }

  /** With distinct ids, deleting a present id removes exactly one truck. */
  lemma {:induction false} DeletePresentDistinct(s: seq<Truck>, id: string)
    requires DistinctIds(s)
    requires HasId(s, id)
    ensures |Delete(s, id)| == |s| - 1
  {
    if s[0].id == id {
      assert !HasId(s[1..], id) by {
        forall j | 0 <= j < |s[1..]| ensures s[1..][j].id != id {
          assert s[1..][j] == s[j + 1];
        }
      }
      DeleteAbsentIsIdentity(s[1..], id);
    } else {
      var k :| 0 <= k < |s| && s[k].id == id;
      assert s[1..][k - 1] == s[k];
      DeletePresentDistinct(s[1..], id);
    }
  }

  /** Deleting keeps the ids pairwise distinct. */
  lemma {:induction false} DeleteKeepsIdsDistinct(s: seq<Truck>, id: string)
    requires DistinctIds(s)
    ensures DistinctIds(Delete(s, id))
  {
    if s != [] {
      assert DistinctIds(s[1..]) by {
        forall i, j | 0 <= i < j < |s[1..]| ensures s[1..][i].id != s[1..][j].id {
          assert s[1..][i] == s[i + 1] && s[1..][j] == s[j + 1];
        }
      }
      DeleteKeepsIdsDistinct(s[1..], id);
      if s[0].id != id {
        var rest := Delete(s[1..], id);
        DeleteKeepsOnlyMembers(s[1..], id);
        forall j | 0 <= j < |rest| ensures rest[j].id != s[0].id {
          assert rest[j] in s[1..];
          var k :| 0 <= k < |s[1..]| && s[1..][k] == rest[j];
          assert s[k + 1] == rest[j];
        }
      }
    }
  }

  /** The dialog asking to confirm a deletion: whether it is open, and for which id. */
  datatype DeleteConfirmation = DeleteConfirmation(show: bool, id: string)

  /** The closed dialog, the initial state and the state every answer returns to. */
  const Dismissed := DeleteConfirmation(false, "")
}
