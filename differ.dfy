/** The change decision of `main` (lines 150-171): the fresh registry is
    compared with the stored snapshot as dicts, and on a difference the
    newest earlier archive revision labels the unified diff. */
module Differ {
  import opened Results
  import opened PyStr
  import opened Registry

  /** `existing != parsed`: dict equality ignores insertion order. */
  predicate Changed(existing: Dict<Descriptor>, parsed: Dict<Descriptor>)
  {
    AsMap(existing) != AsMap(parsed)
  }

  /** The same endpoints registered in another order are no change. */
  lemma ReorderingIsNoChange(a: Dict<Descriptor>, b: Dict<Descriptor>)
    requires DistinctKeys(a) && DistinctKeys(b) && multiset(a) == multiset(b)
    ensures !Changed(a, b)
  {
    AsMapKeys(a);
    AsMapKeys(b);
    forall key | key in AsMap(a) ensures key in AsMap(b) && AsMap(b)[key] == AsMap(a)[key] {
      HasKeyIndex(a, key);
      var k :| 0 <= k < |a| && a[k].0 == key;
      AsMapLookup(a, k);
      assert a[k] in multiset(b);
      var j :| 0 <= j < |b| && b[j] == a[k];
      AsMapLookup(b, j);
    }
    forall key | key in AsMap(b) ensures key in AsMap(a) {
      HasKeyIndex(b, key);
      var j :| 0 <= j < |b| && b[j].0 == key;
      assert b[j] in multiset(a);
      var k :| 0 <= k < |a| && a[k] == b[j];
      HasKeyIndex(a, key);
    }
  }

  /** A single descriptor that differs anywhere is a change. */
  lemma OneDifferenceIsChange(d: Dict<Descriptor>, key: string, v: Descriptor)
    requires key in AsMap(d) && AsMap(d)[key] != v
    ensures Changed(d, Put(d, key, v))
  {
    PutAsMap(d, key, v);
    assert AsMap(Put(d, key, v))[key] == v;
  }

  /** A new endpoint is a change. */
  lemma NewEndpointIsChange(d: Dict<Descriptor>, key: string, v: Descriptor)
    requires key !in AsMap(d)
    ensures Changed(d, Put(d, key, v))
  {
    PutAsMap(d, key, v);
    assert key in AsMap(Put(d, key, v));
  }

  // ---------------------------------------------------------------- revisions

  /** `revisions.sort()` then `revisions[-1]`: the greatest name in
      Python's string order. */
  function Latest(revisions: seq<string>): (r: string)
    requires |revisions| > 0
    ensures r in revisions
    ensures forall k :: 0 <= k < |revisions| ==> LexLe(revisions[k], r)
  {
    if |revisions| == 1 then
      LexLeTotal(revisions[0], revisions[0]);
      revisions[0]
    else
      var m := Latest(revisions[1..]);
      LexLeTotal(revisions[0], m);
      assert forall k :: 1 <= k < |revisions| ==> revisions[k] == revisions[1..][k - 1];
      if LexLe(revisions[0], m) then m
      else
        LexLeTotal(revisions[0], revisions[0]);
        assert forall k :: 1 <= k < |revisions| ==> LexLe(revisions[k], revisions[0]) by {
          forall k | 1 <= k < |revisions| ensures LexLe(revisions[k], revisions[0]) {
            LexLeTransitive(revisions[k], m, revisions[0]);
          }
        }
        revisions[0]
  }

  predicate Sorted(s: seq<string>)
  {
    forall i, j :: 0 <= i < j < |s| ==> LexLe(s[i], s[j])
  }

  /** Whatever sort puts the names in order, its last element is the
      greatest name: `sort()` then `[-1]` is `Latest`. */
  lemma LastOfSortedIsLatest(revisions: seq<string>, sorted: seq<string>)
    requires |revisions| > 0 && Sorted(sorted) && multiset(sorted) == multiset(revisions)
    ensures |sorted| == |revisions| && sorted[|sorted| - 1] == Latest(revisions)
  {
    assert |sorted| == |multiset(sorted)| == |multiset(revisions)| == |revisions|;
    var last := sorted[|sorted| - 1];
    var m := Latest(revisions);
    assert last in multiset(revisions);
    var k :| 0 <= k < |revisions| && revisions[k] == last;
    assert m in multiset(sorted);
    var j :| 0 <= j < |sorted| && sorted[j] == m;
    if j < |sorted| - 1 {
      assert LexLe(m, last);
    } else {
      LexLeTotal(m, m);
    }
    LexLeAntisymmetric(m, last);
  }

  /** Lines 158-159: `previous_revision` is bound only when more than one
      earlier revision exists. */
  function PreviousRevision(revisions: seq<string>): (r: Option<string>)
    ensures r.Some? <==> |revisions| > 1
    ensures r.Some? ==> r.value in revisions && forall k :: 0 <= k < |revisions| ==> LexLe(revisions[k], r.value)
  {
    if |revisions| > 1 then Some(Latest(revisions)) else None
  }

  // ---------------------------------------------------------------- one run

  /** What one run of `main` reports: the `changes` flag, whether the
      unified diff got written (and the gist edited), and the revision
      labelling the diff's old side. */
  datatype Outcome = Outcome(changes: bool, diffWritten: bool, revision: Option<string>)

  /** Lines 138-171 with check enabled, as written. `existing` is `None`
      when the snapshot could not be loaded, `parsed` a failure when
      extraction raised: either exception is caught and `changes` stays
      false. On a change the flag is set before the archive is consulted;
      with one or no earlier revision `previous_revision` is unbound when
      the diff is labelled, so the raise skips the diff, the gist edit and
      the rest of the run but leaves `changes` set. */
  function Decide(existing: Option<Dict<Descriptor>>, parsed: Result<Dict<Descriptor>>, revisions: seq<string>): (r: Outcome)
    ensures r.changes <==> existing.Some? && parsed.Ok? && Changed(existing.value, parsed.value)
    ensures r.diffWritten <==> r.changes && |revisions| > 1
    ensures r.revision.Some? <==> r.diffWritten
    ensures r.revision.Some? ==>
              r.revision.value in revisions && forall k :: 0 <= k < |revisions| ==> LexLe(revisions[k], r.revision.value)
  {
    if existing.None? || parsed.Fail? then Outcome(false, false, None)
    else if !Changed(existing.value, parsed.value) then Outcome(false, false, None)
    else
      var previous := PreviousRevision(revisions);
      Outcome(true, previous.Some?, previous)
  }

  /** The first two changes ever detected (an archive with no or one earlier
      revision) are flagged but never diffed. */
  lemma EarlyChangesLoseDiff(d: Descriptor)
    ensures var r := Decide(Some([]), Ok([("GET_api_v1_me", d)]), []);
            r.changes && !r.diffWritten
    ensures var r := Decide(Some([]), Ok([("GET_api_v1_me", d)]), ["2024-01-01_00-00-00"]);
            r.changes && !r.diffWritten
  {
    assert "GET_api_v1_me" in AsMap([("GET_api_v1_me", d)]);
  }

  /** The decision with the label made optional: every change is diffed,
      and the diff is labelled with the newest earlier revision when there
      is one. */
  function DecideLabelled(existing: Option<Dict<Descriptor>>, parsed: Result<Dict<Descriptor>>, revisions: seq<string>): (r: Outcome)
    ensures r.changes <==> existing.Some? && parsed.Ok? && Changed(existing.value, parsed.value)
    ensures r.diffWritten <==> r.changes
    ensures r.revision.Some? <==> r.changes && |revisions| > 0
    ensures r.revision.Some? ==>
              r.revision.value in revisions && forall k :: 0 <= k < |revisions| ==> LexLe(revisions[k], r.revision.value)
  {
    if existing.None? || parsed.Fail? then Outcome(false, false, None)
    else if !Changed(existing.value, parsed.value) then Outcome(false, false, None)
    else Outcome(true, true, if |revisions| > 0 then Some(Latest(revisions)) else None)
  }

  /** The two decisions agree on the flag, and on everything else once
      the archive holds more than one revision. */
  lemma LabelledAgrees(existing: Option<Dict<Descriptor>>, parsed: Result<Dict<Descriptor>>, revisions: seq<string>)
    ensures DecideLabelled(existing, parsed, revisions).changes == Decide(existing, parsed, revisions).changes
    ensures |revisions| > 1 ==> DecideLabelled(existing, parsed, revisions) == Decide(existing, parsed, revisions)
  {
  }

  /** Once the snapshot holds the registry just extracted, the next run
      with an unchanged page reports nothing. */
  lemma NoChangeAfterUpdate(parsed: Dict<Descriptor>, revisions: seq<string>)
    ensures Decide(Some(parsed), Ok(parsed), revisions) == Outcome(false, false, None)
    ensures DecideLabelled(Some(parsed), Ok(parsed), revisions) == Outcome(false, false, None)
  {
  }
}
