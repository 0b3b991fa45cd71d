/** The ledger's job set: an insertion-ordered index set with room for eight. */
module JobSets {
  import opened Collections
  import opened Wrappers
  import opened Uuids

  const CAPACITY := 8

  function Insert(jobs: seq<Uuid>, g: Uuid): seq<Uuid> {
    if g in jobs || |jobs| >= CAPACITY then jobs else jobs + [g]
  }

  function IndexOf(jobs: seq<Uuid>, g: Uuid): (i: nat)
    requires g in jobs
    ensures i < |jobs| && jobs[i] == g
  {
    if jobs[0] == g then 0 else 1 + IndexOf(jobs[1..], g)
  }

  function SwapRemove(jobs: seq<Uuid>, g: Uuid): seq<Uuid>
    requires g in jobs
  {
    var i := IndexOf(jobs, g);
    var last := |jobs| - 1;
    if i == last then jobs[..last] else jobs[..last][i := jobs[last]]
  }

  /** The i-th job has a file, and no job before it has. */
  ghost predicate IsFirstIn(jobs: seq<Uuid>, files: set<Uuid>, i: int) {
    0 <= i < |jobs| && jobs[i] in files && forall j :: 0 <= j < i ==> jobs[j] !in files
  }

  function FirstPrintable(jobs: seq<Uuid>, files: set<Uuid>): (r: Option<Uuid>)
    ensures r.Some? ==> r.value in jobs && r.value in files
    ensures r.Some? ==> exists i :: 0 <= i < |jobs| && IsFirstIn(jobs, files, i) && jobs[i] == r.value
    ensures r.None? ==> forall g :: g in jobs ==> g !in files
  {
    if jobs == [] then None
    else if jobs[0] in files then Some(jobs[0])
    else
      var rest := FirstPrintable(jobs[1..], files);
      assert rest.Some? ==> exists i :: 0 <= i < |jobs| && IsFirstIn(jobs, files, i) && jobs[i] == rest.value by {
        if rest.Some? {
          var i :| 0 <= i < |jobs[1..]| && IsFirstIn(jobs[1..], files, i) && jobs[1..][i] == rest.value;
          assert forall j :: 0 < j < i + 1 ==> jobs[j] == jobs[1..][j - 1];
          assert IsFirstIn(jobs, files, i + 1) && jobs[i + 1] == rest.value;
        }
      }
      rest
  }

  lemma InsertAddsWhenThereIsRoom(jobs: seq<Uuid>, g: Uuid)
    requires NoDuplicates(jobs)
    ensures NoDuplicates(Insert(jobs, g))
    ensures ToSet(Insert(jobs, g)) == ToSet(jobs) + if |jobs| < CAPACITY then {g} else {}
    ensures jobs <= Insert(jobs, g)
  {
  }

  /** Removal moves the last job into the gap and keeps the order of the others. */
  lemma SwapRemoveTakesOneOut(jobs: seq<Uuid>, g: Uuid)
    requires NoDuplicates(jobs) && g in jobs
    ensures NoDuplicates(SwapRemove(jobs, g))
    ensures ToSet(SwapRemove(jobs, g)) == ToSet(jobs) - {g}
    ensures |SwapRemove(jobs, g)| == |jobs| - 1
    ensures forall k :: 0 <= k < |jobs| - 1 ==>
              SwapRemove(jobs, g)[k] == if jobs[k] == g then jobs[|jobs| - 1] else jobs[k]
  {
    var i, last, r := IndexOf(jobs, g), |jobs| - 1, SwapRemove(jobs, g);
    forall x | x in jobs && x != g
      ensures x in r
    {
      var k :| 0 <= k < |jobs| && jobs[k] == x;
      assert r[if k == last then i else k] == x;
    }
  }
}
