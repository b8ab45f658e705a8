/** The per-patient "next encounter" window of build_encounter_facts: the
    encounter frame is sorted by (patient_id, admit_date) and each row looks
    at the following row of the same patient (groupby().shift(-1)).
    Encounters of one patient admitted on the same day keep their input
    order (the sort is stable), so the sort key is (patient, admit, input
    position), a strict total order on row positions. */
module PatientWindow {
  import opened Domain

  /** Python's str ordering: lexicographic by code point. */
  predicate StrLess(a: string, b: string)
    decreases |a|
  {
    if |a| == 0 then |b| > 0
    else |b| > 0 && (a[0] < b[0] || (a[0] == b[0] && StrLess(a[1..], b[1..])))
  }

  lemma {:induction false} StrLessIrreflexive(a: string)
    ensures !StrLess(a, a)
    decreases |a|
  {
    if |a| > 0 {
      StrLessIrreflexive(a[1..]);
    }
  }

  lemma {:induction false} StrLessTransitive(a: string, b: string, c: string)
    requires StrLess(a, b) && StrLess(b, c)
    ensures StrLess(a, c)
    decreases |a|
  {
    if |a| > 0 && a[0] == b[0] && b[0] == c[0] {
      StrLessTransitive(a[1..], b[1..], c[1..]);
    }
  }

  lemma {:induction false} StrLessTotal(a: string, b: string)
    requires a != b
    ensures StrLess(a, b) || StrLess(b, a)
    decreases |a|
  {
    if |a| > 0 && |b| > 0 && a[0] == b[0] {
      assert a == [a[0]] + a[1..];
      assert b == [b[0]] + b[1..];
      StrLessTotal(a[1..], b[1..]);
    }
  }

  /** Row i of the encounter frame is admitted before row j: earlier admit
      date, or the same day and earlier in the input. */
  predicate AdmittedBefore(encs: seq<Encounter>, i: nat, j: nat)
    requires i < |encs| && j < |encs|
  {
    encs[i].admit < encs[j].admit || (encs[i].admit == encs[j].admit && i < j)
  }

  /** Row j is a later encounter of the same patient as row i. */
  predicate LaterOfPatient(encs: seq<Encounter>, i: nat, j: nat)
    requires i < |encs| && j < |encs|
  {
    encs[i].patient == encs[j].patient && AdmittedBefore(encs, i, j)
  }

  /** Row j is the patient's next encounter after row i: later, and no
      encounter of the patient lies strictly between them. */
  ghost predicate IsNext(encs: seq<Encounter>, i: nat, j: nat)
    requires i < |encs| && j < |encs|
  {
    LaterOfPatient(encs, i, j) &&
    forall m :: 0 <= m < |encs| && LaterOfPatient(encs, i, m) ==> !AdmittedBefore(encs, m, j)
  }

  /** Row i is its patient's last encounter. */
  ghost predicate IsLast(encs: seq<Encounter>, i: nat)
    requires i < |encs|
  {
    forall m :: 0 <= m < |encs| ==> !LaterOfPatient(encs, i, m)
  }

  /** The sort order of sort_values(by=['patient_id', 'admit_date']) with
      stable ties. */
  predicate SortsBefore(encs: seq<Encounter>, i: nat, j: nat)
    requires i < |encs| && j < |encs|
  {
    StrLess(encs[i].patient, encs[j].patient) ||
    (encs[i].patient == encs[j].patient && AdmittedBefore(encs, i, j))
  }

  lemma SortsBeforeIrreflexive(encs: seq<Encounter>, i: nat)
    requires i < |encs|
    ensures !SortsBefore(encs, i, i)
  {
    StrLessIrreflexive(encs[i].patient);
  }

  lemma SortsBeforeTransitive(encs: seq<Encounter>, i: nat, j: nat, k: nat)
    requires i < |encs| && j < |encs| && k < |encs|
    requires SortsBefore(encs, i, j) && SortsBefore(encs, j, k)
    ensures SortsBefore(encs, i, k)
  {
    var a, b, c := encs[i].patient, encs[j].patient, encs[k].patient;
    if StrLess(a, b) && StrLess(b, c) {
      StrLessTransitive(a, b, c);
    }
  }

  lemma SortsBeforeTotal(encs: seq<Encounter>, i: nat, j: nat)
    requires i < |encs| && j < |encs| && i != j
    ensures SortsBefore(encs, i, j) || SortsBefore(encs, j, i)
  {
    if encs[i].patient != encs[j].patient {
      StrLessTotal(encs[i].patient, encs[j].patient);
    }
  }

  /** perm lists every row position below n exactly once. */
  ghost predicate IsPermutation(perm: seq<nat>, n: nat)
  {
    |perm| == n &&
    (forall k :: 0 <= k < |perm| ==> perm[k] < n) &&
    (forall x: nat :: x < n ==> x in perm) &&
    (forall a, b :: 0 <= a < b < |perm| ==> perm[a] != perm[b])
  }

  /** perm lists row positions in strictly increasing sort order. */
  ghost predicate SortedBy(encs: seq<Encounter>, perm: seq<nat>)
  {
    (forall k :: 0 <= k < |perm| ==> perm[k] < |encs|) &&
    (forall a, b :: 0 <= a < b < |perm| ==> SortsBefore(encs, perm[a], perm[b]))
  }

  /** The row positions of the encounter frame after the in-place
      sort_values(by=['patient_id', 'admit_date']): a permutation of the
      input positions in sort order. */
  method SortByPatientAdmit(encs: seq<Encounter>) returns (perm: seq<nat>)
    ensures IsPermutation(perm, |encs|)
    ensures SortedBy(encs, perm)
  {
    perm := [];
    var i := 0;
    while i < |encs|
      invariant 0 <= i <= |encs|
      invariant |perm| == i
      invariant forall k :: 0 <= k < |perm| ==> perm[k] < i
      invariant forall x: nat :: x < i ==> x in perm
      invariant SortedBy(encs, perm)
    {
      var pos := 0;
      while pos < |perm| && SortsBefore(encs, perm[pos], i)
        invariant 0 <= pos <= |perm|
        invariant forall a :: 0 <= a < pos ==> SortsBefore(encs, perm[a], i)
      {
        pos := pos + 1;
      }
      forall b | pos <= b < |perm|
        ensures SortsBefore(encs, i, perm[b])
      {
        SortsBeforeTotal(encs, perm[pos], i);
        if b > pos {
          SortsBeforeTransitive(encs, i, perm[pos], perm[b]);
        }
      }
      var next := perm[..pos] + [i] + perm[pos..];
      assert forall k :: 0 <= k < |next| ==> next[k] == (if k < pos then perm[k] else if k == pos then i else perm[k - 1]);
      forall x: nat | x < i + 1
        ensures x in next
      {
        if x < i {
          assert x in perm;
          var k :| 0 <= k < |perm| && perm[k] == x;
          assert next[if k < pos then k else k + 1] == x;
        } else {
          assert next[pos] == x;
        }
      }
      perm := next;
      i := i + 1;
    }
    forall a, b | 0 <= a < b < |perm|
      ensures perm[a] != perm[b]
    {
      SortsBeforeIrreflexive(encs, perm[a]);
    }
  }

  /** Two rows that the sort places in a given order, when they belong to
      the same patient, are in admission order. */
  lemma SamePatientSortOrder(encs: seq<Encounter>, perm: seq<nat>, a: nat, b: nat)
    requires SortedBy(encs, perm)
    requires a < b < |perm|
    requires encs[perm[a]].patient == encs[perm[b]].patient
    ensures AdmittedBefore(encs, perm[a], perm[b])
  {
    StrLessIrreflexive(encs[perm[a]].patient);
  }

  /** The shifted value of sorted position k: the next row of the same
      patient, if the following row belongs to that patient. */
  function ShiftedNext(encs: seq<Encounter>, perm: seq<nat>, k: nat): Option<nat>
    requires SortedBy(encs, perm) && k < |perm|
  {
    if k + 1 < |perm| && encs[perm[k + 1]].patient == encs[perm[k]].patient
    then Some(perm[k + 1]) else None
  }

  /** The source's window is right: after the sort, the following row of
      the same patient is that patient's next encounter by admit date, and
      when the following row is absent or belongs to another patient, the
      row is the patient's last encounter. */
  lemma {:induction false} ShiftFindsNext(encs: seq<Encounter>, perm: seq<nat>, k: nat)
    requires IsPermutation(perm, |encs|) && SortedBy(encs, perm)
    requires k < |perm|
    ensures ShiftedNext(encs, perm, k).Some? ==>
              ShiftedNext(encs, perm, k).value < |encs| && IsNext(encs, perm[k], ShiftedNext(encs, perm, k).value)
    ensures ShiftedNext(encs, perm, k).None? ==> IsLast(encs, perm[k])
  {
    var i := perm[k];
    if ShiftedNext(encs, perm, k).Some? {
      var j := perm[k + 1];
      SamePatientSortOrder(encs, perm, k, k + 1);
      forall m | 0 <= m < |encs| && LaterOfPatient(encs, i, m)
        ensures !AdmittedBefore(encs, m, j)
      {
        assert m in perm;
        var t :| 0 <= t < |perm| && perm[t] == m;
        if t < k {
          SamePatientSortOrder(encs, perm, t, k);
        } else if k + 1 < t {
          SamePatientSortOrder(encs, perm, k + 1, t);
        }
      }
    } else {
      forall m | 0 <= m < |encs|
        ensures !LaterOfPatient(encs, i, m)
      {
        if LaterOfPatient(encs, i, m) {
          assert m in perm;
        var t :| 0 <= t < |perm| && perm[t] == m;
          if t < k {
            SamePatientSortOrder(encs, perm, t, k);
          } else if t > k + 1 {
            var p, q := encs[i].patient, encs[perm[k + 1]].patient;
            assert StrLess(p, q) && StrLess(q, p);
            StrLessTransitive(p, q, p);
            StrLessIrreflexive(p);
          }
        }
      }
    }
  }

  /** groupby('patient_id').shift(-1) over the sorted frame: for each sorted
      position, the row position of the patient's next encounter. */
  method ShiftWithinPatient(encs: seq<Encounter>, perm: seq<nat>) returns (next: seq<Option<nat>>)
    requires IsPermutation(perm, |encs|) && SortedBy(encs, perm)
    ensures |next| == |perm|
    ensures forall k :: 0 <= k < |next| && next[k].Some? ==>
              next[k].value < |encs| && IsNext(encs, perm[k], next[k].value)
    ensures forall k :: 0 <= k < |next| && next[k].None? ==> IsLast(encs, perm[k])
  {
    next := [];
    var k := 0;
    while k < |perm|
      invariant 0 <= k <= |perm|
      invariant |next| == k
      invariant forall t :: 0 <= t < k ==> next[t] == ShiftedNext(encs, perm, t)
    {
      var shifted := if k + 1 < |perm| && encs[perm[k + 1]].patient == encs[perm[k]].patient
                     then Some(perm[k + 1]) else None;
      next := next + [shifted];
      k := k + 1;
    }
    forall t | 0 <= t < |next|
      ensures next[t].Some? ==> next[t].value < |encs| && IsNext(encs, perm[t], next[t].value)
      ensures next[t].None? ==> IsLast(encs, perm[t])
    {
      ShiftFindsNext(encs, perm, t);
    }
  }

  /** A row has at most one next encounter. */
  lemma {:induction false} NextIsUnique(encs: seq<Encounter>, i: nat, j1: nat, j2: nat)
    requires i < |encs| && j1 < |encs| && j2 < |encs|
    requires IsNext(encs, i, j1) && IsNext(encs, i, j2)
    ensures j1 == j2
  {
    assert !AdmittedBefore(encs, j1, j2) && !AdmittedBefore(encs, j2, j1);
  }

  /** A row with a next encounter is not its patient's last. */
  lemma {:induction false} NextExcludesLast(encs: seq<Encounter>, i: nat, j: nat)
    requires i < |encs| && j < |encs|
    requires IsNext(encs, i, j)
    ensures !IsLast(encs, i)
  {
    assert LaterOfPatient(encs, i, j);
  }
}
