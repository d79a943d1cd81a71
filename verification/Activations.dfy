/**
 * Fault activations, read off a sequence of on/off reports alone. An activation begins where a
 * code that was off is reported on, and ends at the next report that it is off. The fault
 * centre's maps, log and database rows are all measured against these definitions.
 */
module Activations {
  import opened Words

  /** One call of setActive: the report, the clock, and whether the database statements it may
      issue succeed. */
  datatype Change = Change(code: U16, on: bool, ts: nat, insertOk: bool, updateOk: bool)

  predicate Timed(evs: seq<Change>) {
    forall i :: 0 <= i < |evs| ==> evs[i].ts > 0
  }

  /** The latest report on a code says it is on. */
  predicate LastOn(evs: seq<Change>, c: U16) {
    |evs| > 0 &&
    var n := |evs| - 1;
    if evs[n].code == c then evs[n].on else LastOn(evs[..n], c)
  }

  predicate Begins(evs: seq<Change>, i: nat) {
    i < |evs| && evs[i].on && !LastOn(evs[..i], evs[i].code)
  }

  /** When the activation that report i began was ended, 0 while it lasts. */
  function EndTs(evs: seq<Change>, i: nat): nat {
    if |evs| <= i + 1 then 0
    else
      var n := |evs| - 1;
      var r := EndTs(evs[..n], i);
      if r != 0 || evs[n].code != evs[i].code || evs[n].on then r else evs[n].ts
  }

  predicate Ongoing(evs: seq<Change>, i: nat) {
    Begins(evs, i) && EndTs(evs, i) == 0
  }

  /** How many activations of the given codes have begun. */
  function Onsets(evs: seq<Change>, codes: set<U16>): nat {
    if |evs| == 0 then 0
    else
      var n := |evs| - 1;
      Onsets(evs[..n], codes) + if Begins(evs, n) && evs[n].code in codes then 1 else 0
  }

  // ---- One more report -------------------------------------------------------------------

  lemma BeginsBefore(evs: seq<Change>, e: Change, i: nat)
    requires i < |evs|
    ensures Begins(evs + [e], i) == Begins(evs, i)
  {
    assert (evs + [e])[..i] == evs[..i];
  }

  lemma {:induction false} BeginsNow(evs: seq<Change>, e: Change)
    ensures Begins(evs + [e], |evs|) <==> e.on && !LastOn(evs, e.code)
  {
    assert (evs + [e])[..|evs|] == evs;
  }

  lemma {:induction false} EndTsNext(evs: seq<Change>, e: Change, i: nat)
    requires i < |evs|
    ensures EndTs(evs + [e], i) ==
            if EndTs(evs, i) != 0 || e.code != evs[i].code || e.on then EndTs(evs, i) else e.ts
  {
    assert (evs + [e])[..|evs|] == evs;
  }

  lemma {:induction false} OnsetsNext(evs: seq<Change>, e: Change, codes: set<U16>)
    ensures Onsets(evs + [e], codes) ==
            Onsets(evs, codes) + if e.on && !LastOn(evs, e.code) && e.code in codes then 1 else 0
  {
    assert (evs + [e])[..|evs|] == evs;
    BeginsNow(evs, e);
  }

  lemma {:induction false} EndTsStill(evs: seq<Change>, i: nat, j: nat)
    requires i < j <= |evs| && EndTs(evs, i) == 0 && Timed(evs)
    ensures EndTs(evs[..j], i) == 0
  {
    if j < |evs| {
      assert evs[..|evs| - 1][..j] == evs[..j];
      EndTsStill(evs[..|evs| - 1], i, j);
    } else {
      assert evs[..j] == evs;
    }
  }

  // ---- Activations and the latest report -------------------------------------------------

  /** No end time means that every later report on the code says on. */
  lemma {:induction false} StillOn(evs: seq<Change>, i: nat, m: nat)
    requires i < m < |evs| && EndTs(evs, i) == 0 && Timed(evs) && evs[m].code == evs[i].code
    ensures evs[m].on
  {
    EndTsStill(evs, i, m + 1);
    assert evs[..m + 1][..m] == evs[..m];
  }

  /** An end time is the time of a report that the code is off, and the first such. */
  lemma {:induction false} EndsAt(evs: seq<Change>, i: nat) returns (m: nat)
    requires i < |evs| && EndTs(evs, i) != 0 && Timed(evs)
    ensures i < m < |evs| && evs[m].code == evs[i].code && !evs[m].on && evs[m].ts == EndTs(evs, i)
    ensures forall j :: i < j < m && evs[j].code == evs[i].code ==> evs[j].on
  {
    var n := |evs| - 1;
    if EndTs(evs[..n], i) != 0 {
      m := EndsAt(evs[..n], i);
    } else {
      m := n;
      forall j | i < j < m && evs[j].code == evs[i].code
        ensures evs[j].on
      {
        StillOn(evs[..n], i, j);
      }
    }
  }

  lemma {:induction false} OngoingIsOn(evs: seq<Change>, i: nat)
    requires Ongoing(evs, i) && Timed(evs)
    ensures LastOn(evs, evs[i].code)
  {
    var n := |evs| - 1;
    if i < n {
      EndTsStill(evs, i, n);
      assert evs == evs[..n] + [evs[n]];
      BeginsBefore(evs[..n], evs[n], i);
      OngoingIsOn(evs[..n], i);
    }
  }

  lemma {:induction false} OnIsOngoing(evs: seq<Change>, c: U16) returns (i: nat)
    requires LastOn(evs, c) && Timed(evs)
    ensures Ongoing(evs, i) && evs[i].code == c
  {
    var n := |evs| - 1;
    assert evs == evs[..n] + [evs[n]];
    if LastOn(evs[..n], c) {
      i := OnIsOngoing(evs[..n], c);
      BeginsBefore(evs[..n], evs[n], i);
    } else {
      i := n;
    }
  }

  lemma OngoingIsFirst(evs: seq<Change>, i: nat, j: nat)
    requires Ongoing(evs, i) && Ongoing(evs, j) && Timed(evs) && i < j
    ensures evs[i].code != evs[j].code
  {
    EndTsStill(evs, i, j);
    assert evs[..j][..i] == evs[..i];
    OngoingIsOn(evs[..j], i);
  }

  /** A code has at most one ongoing activation. */
  lemma OneOngoing(evs: seq<Change>, i: nat, j: nat)
    requires Ongoing(evs, i) && Ongoing(evs, j) && Timed(evs) && evs[i].code == evs[j].code
    ensures i == j
  {
    if i < j {
      OngoingIsFirst(evs, i, j);
    } else if j < i {
      OngoingIsFirst(evs, j, i);
    }
  }
}
