/**
 The per-frame inference callback: it filters one frame's detections by a
 confidence threshold and a left-edge exclusion zone, counts what survives,
 and decides the single absolute command sent to the package_detected
 input_boolean.
 */
module Inference {

  /** Entries whose confidence is below this are skipped. */
  const ConfidenceThreshold: real := 0.5

  /** An entry is kept only if its box's left edge lies strictly right of this. */
  const MinLeftEdge: real := 300.0

  /** A retained entry: its confidence and its box [x_min, y_min, x_max, y_max]. */
  datatype Detection = Detection(confidence: real, box: seq<real>)

  /** The absolute state command issued for a frame, in place of the HTTP POST. */
  datatype Command = TurnOn | TurnOff

  /** The keep rule: confident enough and right of the exclusion zone. */
  predicate Keep(confidence: real, xMin: real)
  {
    confidence >= ConfidenceThreshold && xMin > MinLeftEdge
  }

  /** The thresholds are exact: confidence 0.5 passes, a left edge of 300 fails. */
  lemma KeepBoundaries()
    ensures forall xMin: real :: Keep(0.5, xMin) <==> xMin > 300.0
    ensures forall confidence: real :: !Keep(confidence, 300.0)
    ensures forall confidence: real, xMin: real :: confidence < 0.5 ==> !Keep(confidence, xMin)
  {
  }

  /**
   What the callback reads of a frame without faulting: the coordinates of an
   entry are looked up, and their first component read, only once the entry
   has passed the confidence test.
   */
  predicate WellFormed(confidences: seq<real>, coordinates: seq<seq<real>>)
  {
    forall i :: 0 <= i < |confidences| && confidences[i] >= ConfidenceThreshold ==>
      i < |coordinates| && |coordinates[i]| >= 1
  }

  /**
   Entry i survives the filter. The first conjunct is the skip test, which
   guards the read of the entry's coordinates.
   */
  predicate Selected(confidences: seq<real>, coordinates: seq<seq<real>>, i: nat)
    requires WellFormed(confidences, coordinates) && i < |confidences|
  {
    confidences[i] >= ConfidenceThreshold && Keep(confidences[i], coordinates[i][0])
  }

  /** The list of kept entries after the loop has looked at the first n entries. */
  function Kept(confidences: seq<real>, coordinates: seq<seq<real>>, n: nat): seq<Detection>
    requires WellFormed(confidences, coordinates) && n <= |confidences|
  {
    if n == 0 then []
    else
      var prefix := Kept(confidences, coordinates, n - 1);
      if Selected(confidences, coordinates, n - 1)
      then prefix + [Detection(confidences[n - 1], coordinates[n - 1])]
      else prefix
  }

  /** The indices, among the first n, of the entries that survive the filter. */
  ghost function SelectedSet(confidences: seq<real>, coordinates: seq<seq<real>>, n: nat): set<nat>
    requires WellFormed(confidences, coordinates) && n <= |confidences|
  {
    set i: nat | i < n && Selected(confidences, coordinates, i)
  }

  /** The surviving indices among the first n, in the order the loop visits them. */
  ghost function SelectedIndices(confidences: seq<real>, coordinates: seq<seq<real>>, n: nat): seq<nat>
    requires WellFormed(confidences, coordinates) && n <= |confidences|
  {
    if n == 0 then []
    else
      SelectedIndices(confidences, coordinates, n - 1) +
      (if Selected(confidences, coordinates, n - 1) then [n - 1] else [])
  }

  /**
   The callback body: walks the two parallel arrays by index, collects the
   kept entries in order, and issues exactly one command for the frame.
   */
  method PackageInference(confidences: seq<real>, coordinates: seq<seq<real>>)
    returns (validDetections: seq<Detection>, command: Command)
    requires WellFormed(confidences, coordinates)
    ensures validDetections == Kept(confidences, coordinates, |confidences|)
    ensures |validDetections| == |SelectedSet(confidences, coordinates, |confidences|)| <= |confidences|
    ensures forall d :: d in validDetections ==> |d.box| >= 1 && Keep(d.confidence, d.box[0])
    ensures command == TurnOn <==> |validDetections| > 0
    ensures command == TurnOn <==>
      exists i :: 0 <= i < |confidences| && Selected(confidences, coordinates, i)
  {
    validDetections := [];
    for detection := 0 to |confidences|
      invariant validDetections == Kept(confidences, coordinates, detection)
    {
      var confidence := confidences[detection];
      if confidence < ConfidenceThreshold {
        continue;
      }
      var coord := coordinates[detection];
      if coord[0] > MinLeftEdge {
        validDetections := validDetections + [Detection(confidence, coord)];
      }
    }
    var numberOfPackages := |validDetections|;
    KeptCount(confidences, coordinates, |confidences|);
    KeptSatisfiesKeep(confidences, coordinates, |confidences|);
    SomeKeptIffSomeSelected(confidences, coordinates, |confidences|);
    if numberOfPackages > 0 {
      command := TurnOn;
    } else {
      command := TurnOff;
    }
  }

  /** The number of packages is the number of surviving indices, at most n. */
  lemma {:induction false} KeptCount(confidences: seq<real>, coordinates: seq<seq<real>>, n: nat)
    requires WellFormed(confidences, coordinates) && n <= |confidences|
    ensures |Kept(confidences, coordinates, n)| == |SelectedSet(confidences, coordinates, n)| <= n
  {
    if n > 0 {
      KeptCount(confidences, coordinates, n - 1);
      var before := SelectedSet(confidences, coordinates, n - 1);
      if Selected(confidences, coordinates, n - 1) {
        assert SelectedSet(confidences, coordinates, n) == before + {n - 1};
      } else {
        assert SelectedSet(confidences, coordinates, n) == before;
      }
    }
  }

  /**
   The kept list is the input filtered in index order: its j-th element is the
   entry at the j-th surviving index, the surviving indices strictly increase,
   and every index that survives appears among them.
   */
  lemma {:induction false} KeptInIndexOrder(confidences: seq<real>, coordinates: seq<seq<real>>, n: nat)
    requires WellFormed(confidences, coordinates) && n <= |confidences|
    ensures var idx := SelectedIndices(confidences, coordinates, n);
      && (forall j :: 0 <= j < |idx| ==> idx[j] < n && Selected(confidences, coordinates, idx[j]))
      && (forall j, k :: 0 <= j < k < |idx| ==> idx[j] < idx[k])
      && (forall i :: 0 <= i < n && Selected(confidences, coordinates, i) ==> i in idx)
      && |Kept(confidences, coordinates, n)| == |idx|
      && (forall j :: 0 <= j < |idx| ==>
            Kept(confidences, coordinates, n)[j] == Detection(confidences[idx[j]], coordinates[idx[j]]))
  {
    if n > 0 {
      KeptInIndexOrder(confidences, coordinates, n - 1);
    }
  }

  /** Every kept entry satisfies the keep rule. */
  lemma {:induction false} KeptSatisfiesKeep(confidences: seq<real>, coordinates: seq<seq<real>>, n: nat)
    requires WellFormed(confidences, coordinates) && n <= |confidences|
    ensures forall d :: d in Kept(confidences, coordinates, n) ==> |d.box| >= 1 && Keep(d.confidence, d.box[0])
  {
    if n > 0 {
      KeptSatisfiesKeep(confidences, coordinates, n - 1);
    }
  }

  /** Some entry is kept exactly when some index survives the filter. */
  lemma {:induction false} SomeKeptIffSomeSelected(confidences: seq<real>, coordinates: seq<seq<real>>, n: nat)
    requires WellFormed(confidences, coordinates) && n <= |confidences|
    ensures |Kept(confidences, coordinates, n)| > 0 <==>
      exists i :: 0 <= i < n && Selected(confidences, coordinates, i)
  {
    KeptCount(confidences, coordinates, n);
    var s := SelectedSet(confidences, coordinates, n);
    if i :| 0 <= i < n && Selected(confidences, coordinates, i) {
      assert i in s;
    }
    if |s| > 0 {
      var i :| i in s;
      assert 0 <= i < n && Selected(confidences, coordinates, i);
    }
  }

  /**
   Raising confidences never removes an entry: every index that survives
   still survives, so the count can only grow and a TurnOn frame stays TurnOn.
   */
  lemma {:induction false} MonotoneInConfidence(confidences: seq<real>, raised: seq<real>, coordinates: seq<seq<real>>, n: nat)
    requires WellFormed(confidences, coordinates) && WellFormed(raised, coordinates)
    requires |raised| == |confidences| && n <= |confidences|
    requires forall i :: 0 <= i < |confidences| ==> confidences[i] <= raised[i]
    ensures SelectedSet(confidences, coordinates, n) <= SelectedSet(raised, coordinates, n)
    ensures |Kept(confidences, coordinates, n)| <= |Kept(raised, coordinates, n)|
    ensures |Kept(confidences, coordinates, n)| > 0 ==> |Kept(raised, coordinates, n)| > 0
  {
    var low := SelectedSet(confidences, coordinates, n);
    var high := SelectedSet(raised, coordinates, n);
    KeptCount(confidences, coordinates, n);
    KeptCount(raised, coordinates, n);
    assert high == low + (high - low);
  }

  /** A caller's view of three frames, derived from the contract alone. */
  method FrameExamples()
  {
    var box1 := [310.0, 0.0, 400.0, 50.0];
    var box2 := [320.0, 0.0, 400.0, 50.0];
    var kept, command := PackageInference([0.9, 0.3], [box1, box2]);
    assert Selected([0.9, 0.3], [box1, box2], 0);
    assert command == TurnOn;

    var box3 := [100.0, 0.0, 400.0, 50.0];
    kept, command := PackageInference([0.9], [box3]);
    assert command == TurnOff;

    kept, command := PackageInference([], []);
    assert command == TurnOff;
  }
}
