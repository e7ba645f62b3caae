/**
 * The presence tracker: `device_connection_times`, the map from a detected
 * device name to the moment it has been seen continuously since.
 */
module Tracker {

  /** The names a scan detected, as a set (`set(connected_devices)`). */
  function Detected(names: seq<string>): set<string> {
    set n | n in names
  }

  /** The tracked map after the insertion loop: every newly seen name gets `now`. */
  function Inserted(tracked: map<string, int>, names: seq<string>, now: int): (r: map<string, int>)
    ensures r.Keys == tracked.Keys + Detected(names)
    ensures forall n :: n in r ==> r[n] == if n in tracked then tracked[n] else now
    decreases |names|
  {
    if names == [] then tracked
    else
      var next := if names[0] in tracked then tracked else tracked[names[0] := now];
      assert Detected(names) == {names[0]} + Detected(names[1..]);
      Inserted(next, names[1..], now)
  }

  /**
   * One reconciliation against a scan: insert the new names, then keep only
   * the names the scan detected. The tracked names become exactly the
   * detected ones; a name tracked before keeps its time, a new one gets `now`.
   */
  function Reconciled(tracked: map<string, int>, detected: seq<string>, now: int): (r: map<string, int>)
    ensures r.Keys == Detected(detected)
    ensures forall n :: n in r ==> r[n] == if n in tracked then tracked[n] else now
  {
    var inserted := Inserted(tracked, detected, now);
    map n | n in inserted && n in Detected(detected) :: inserted[n]
  }

  class PresenceTracker {
    /** Device name to the stamp (see `Clock.Stamp`) since which it has been seen. */
    var since: map<string, int>

    constructor ()
      ensures since == map[]
    {
      since := map[];
    }

    /** `update_device_connection_times(connected_devices)` at the moment `now`. */
    method Update(detected: seq<string>, now: int)
      modifies this
      ensures since.Keys == Detected(detected)
      ensures forall n :: n in since ==> since[n] == if n in old(since) then old(since)[n] else now
      ensures since == Reconciled(old(since), detected, now)
    {
      for i := 0 to |detected|
        invariant since.Keys == old(since).Keys + Detected(detected[..i])
        invariant forall n :: n in since ==> since[n] == if n in old(since) then old(since)[n] else now
      {
        assert Detected(detected[..i + 1]) == Detected(detected[..i]) + {detected[i]} by {
          assert detected[..i + 1] == detected[..i] + [detected[i]];
        }
        if detected[i] !in since {
          since := since[detected[i] := now];
        }
      }
      assert detected[..|detected|] == detected;
      var connected := Detected(detected);
      since := map n | n in since && n in connected :: since[n];
    }
  }

  /** One poll cycle's scan: the names detected and the moment of the scan. */
  datatype Scan = Scan(detected: seq<string>, now: int)

  /** The tracked map after reconciling against each scan in turn. */
  function AfterScans(tracked: map<string, int>, scans: seq<Scan>): map<string, int>
    decreases |scans|
  {
    if scans == [] then tracked
    else AfterScans(Reconciled(tracked, scans[0].detected, scans[0].now), scans[1..])
  }

  /**
   * A device detected by every scan keeps one start time throughout: the one
   * it had before the first scan, or that scan's moment if it was new. Its
   * tracked duration therefore grows with every scan.
   */
  lemma {:induction false} ContinuousPresence(tracked: map<string, int>, scans: seq<Scan>, d: string)
    requires |scans| > 0
    requires forall k :: 0 <= k < |scans| ==> d in scans[k].detected
    ensures d in AfterScans(tracked, scans)
    ensures AfterScans(tracked, scans)[d] == if d in tracked then tracked[d] else scans[0].now
    decreases |scans|
  {
    var next := Reconciled(tracked, scans[0].detected, scans[0].now);
    assert d in Detected(scans[0].detected);
    if |scans| > 1 {
      ContinuousPresence(next, scans[1..], d);
    }
  }

  /**
   * A device missing from one scan and detected by every later one is
   * tracked from the first scan after its absence: nothing carries over.
   */
  lemma {:induction false} Reappearance(tracked: map<string, int>, scans: seq<Scan>, k: nat, d: string)
    requires k + 1 < |scans|
    requires d !in scans[k].detected
    requires forall j :: k < j < |scans| ==> d in scans[j].detected
    ensures d in AfterScans(tracked, scans)
    ensures AfterScans(tracked, scans)[d] == scans[k + 1].now
    decreases |scans|
  {
    var next := Reconciled(tracked, scans[0].detected, scans[0].now);
    if k == 0 {
      assert d !in next;
      ContinuousPresence(next, scans[1..], d);
    } else {
      Reappearance(next, scans[1..], k - 1, d);
    }
  }

  /** A device the latest scan did not detect is no longer tracked. */
  lemma {:induction false} Purged(tracked: map<string, int>, scans: seq<Scan>, d: string)
    requires |scans| > 0
    requires d !in scans[|scans| - 1].detected
    ensures d !in AfterScans(tracked, scans)
    decreases |scans|
  {
    var next := Reconciled(tracked, scans[0].detected, scans[0].now);
    if |scans| > 1 {
      Purged(next, scans[1..], d);
    }
  }
}
