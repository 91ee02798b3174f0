/**
 * R_EDGE and F_EDGE inputs of function blocks: what the block receives when it
 * is called from a program and from the body of another block.
 */
module EdgeInputs {
  datatype Edge = Rising | Falling

  // What an edge-qualified input receives from a signal and the one before it.
  predicate EdgeOf(edge: Edge, previous: bool, current: bool) {
    match edge
    case Rising => current && !previous
    case Falling => !current && previous
  }

  predicate LastOf(signals: seq<bool>) {
    signals != [] && signals[|signals| - 1]
  }

  // What the block receives in the last of a sequence of calls with these signals.
  predicate Received(edge: Edge, signals: seq<bool>) {
    signals != [] && EdgeOf(edge, LastOf(signals[..|signals| - 1]), signals[|signals| - 1])
  }

  // Passing on the signal of the last of these calls gives the block its edge.
  predicate Passes(edge: Edge, signals: seq<bool>)
    requires signals != []
  {
    var before := LastOf(signals[..|signals| - 1]);
    match edge
    case Rising => !(before && LastOf(signals))
    case Falling => !before && !LastOf(signals)
  }

  // The input's field of the instance and the one that keeps the last signal, in
  // an instance of a program or of another block, and the signals of the calls
  // so far.
  class EdgeInput {
    var value: bool
    var previous: bool
    ghost const ofProgram: bool
    ghost var signals: seq<bool>

    ghost predicate Valid()
      reads this
    {
      ofProgram ==> previous == LastOf(signals)
    }

    constructor (ghost ofProgram: bool)
      ensures Valid() && !value && !previous && signals == [] && this.ofProgram == ofProgram
    {
      value, previous := false, false;
      this.ofProgram := ofProgram;
      signals := [];
    }

    // A call from a program, and any call in the interpreter.
    method BindFromProgram(edge: Edge, signal: bool)
      requires Valid() && ofProgram
      modifies this
      ensures Valid() && signals == old(signals) + [signal] && value == Received(edge, signals)
    {
      var current := signal;
      match edge {
        case Rising => value := current && !previous;
        case Falling => value := !current && previous;
      }
      previous := current;
      signals := signals + [signal];
    }

    // A call from the body of another block: the qualifier is not looked at.
    method BindFromBody(signal: bool)
      requires Valid() && !ofProgram
      modifies this`value, this`signals
      ensures Valid() && signals == old(signals) + [signal]
      ensures forall edge :: value == Received(edge, signals) <==> Passes(edge, signals)
    {
      value := signal;
      signals := signals + [signal];
    }
  }

  ghost predicate NeverTwice(signals: seq<bool>) {
    forall k :: 0 < k < |signals| ==> !(signals[k - 1] && signals[k])
  }

  ghost predicate NeverSet(signals: seq<bool>) {
    forall k :: 0 <= k < |signals| ==> !signals[k]
  }

  // Over a sequence of calls from a body the block receives what it should
  // exactly when a rising input is never set twice running, and a falling one is
  // never set at all.
  lemma BodyCallsAgree(edge: Edge, signals: seq<bool>)
    ensures (forall k :: 0 < k <= |signals| ==> Passes(edge, signals[..k]))
            <==> if edge == Rising then NeverTwice(signals) else NeverSet(signals)
  {
    forall k | 0 < k <= |signals|
      ensures LastOf(signals[..k]) == signals[k - 1]
      ensures LastOf(signals[..k][..k - 1]) == (k > 1 && signals[k - 2])
    {
      assert signals[..k][..k - 1] == signals[..k - 1];
    }
    if edge == Rising && !NeverTwice(signals) {
      var k :| 0 < k < |signals| && signals[k - 1] && signals[k];
      assert !Passes(edge, signals[..k + 1]);
    }
    if edge == Falling && !NeverSet(signals) {
      var k :| 0 <= k < |signals| && signals[k];
      assert !Passes(edge, signals[..k + 1]);
    }
  }
}
