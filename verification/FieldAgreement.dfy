/** What the ranks of a job state, and which statements pass the field loop of mpif_check_environment on every rank. */
module FieldAgreement {
  import opened NodeLayout
  import opened Options

  /** What the field loop compares, in the source's order: seven versions, then the two node variables, 0 when unset. */
  const NFIELDS := 9
  const NUM_NODES := 7
  const NODE_SIZE := 8

  /** What one rank brings: its fields, the library version string it loaded, and its processor name as a record. */
  datatype Input = Input(fields: seq<int>, library: string, name: Name)

  ghost predicate WellFormed(inputs: seq<Input>) {
    |inputs| > 0 && forall r :: 0 <= r < |inputs| ==> |inputs[r].fields| == NFIELDS
  }

  // ----- the reductions

  function Least(inputs: seq<Input>, f: nat): (m: int)
    requires WellFormed(inputs) && f < NFIELDS
    ensures forall r :: 0 <= r < |inputs| ==> m <= inputs[r].fields[f]
    ensures exists r :: 0 <= r < |inputs| && m == inputs[r].fields[f]
  {
    if |inputs| == 1 then inputs[0].fields[f]
    else
      var m, x := Least(inputs[..|inputs| - 1], f), inputs[|inputs| - 1].fields[f];
      if x < m then x else m
  }

  function Greatest(inputs: seq<Input>, f: nat): (m: int)
    requires WellFormed(inputs) && f < NFIELDS
    ensures forall r :: 0 <= r < |inputs| ==> m >= inputs[r].fields[f]
    ensures exists r :: 0 <= r < |inputs| && m == inputs[r].fields[f]
  {
    if |inputs| == 1 then inputs[0].fields[f]
    else
      var m, x := Greatest(inputs[..|inputs| - 1], f), inputs[|inputs| - 1].fields[f];
      if x > m then x else m
  }

  /** MPI_Allreduce with MPI_MIN and MPI_MAX, field by field. */
  function Mins(inputs: seq<Input>): seq<int>
    requires WellFormed(inputs)
  {
    seq(NFIELDS, f requires 0 <= f < NFIELDS => Least(inputs, f))
  }

  function Maxs(inputs: seq<Input>): seq<int>
    requires WellFormed(inputs)
  {
    seq(NFIELDS, f requires 0 <= f < NFIELDS => Greatest(inputs, f))
  }

  // ----- the field loop

  predicate Consistent(local: seq<int>, vmin: seq<int>, vmax: seq<int>, f: nat)
    requires |local| == |vmin| == |vmax| == NFIELDS && f < NFIELDS
  {
    if f >= NFIELDS - 2 then local[f] == 0 || local[f] == vmax[f] else vmin[f] == vmax[f]
  }

  predicate FieldsPass(local: seq<int>, vmin: seq<int>, vmax: seq<int>)
    requires |local| == |vmin| == |vmax| == NFIELDS
  {
    forall f :: 0 <= f < NFIELDS ==> Consistent(local, vmin, vmax, f)
  }

  /** The loop on one rank: the first field that is not consistent, where the source aborts, or none. */
  method FieldLoop(local: seq<int>, vmin: seq<int>, vmax: seq<int>) returns (bad: Option<nat>)
    requires |local| == |vmin| == |vmax| == NFIELDS
    ensures bad == None <==> FieldsPass(local, vmin, vmax)
    ensures bad.Some? ==> bad.value < NFIELDS && !Consistent(local, vmin, vmax, bad.value)
                          && forall f :: 0 <= f < bad.value ==> Consistent(local, vmin, vmax, f)
  {
    for i := 0 to NFIELDS
      invariant forall f :: 0 <= f < i ==> Consistent(local, vmin, vmax, f)
    {
      var isEnvField := i >= NFIELDS - 2;
      var consistent := if isEnvField then local[i] == 0 || local[i] == vmax[i] else vmin[i] == vmax[i];
      if !consistent {
        assert !Consistent(local, vmin, vmax, i);
        return Some(i);
      }
    }
    return None;
  }

  /** All ranks have the same value of a field. */
  ghost predicate AllEqual(inputs: seq<Input>, f: nat)
    requires WellFormed(inputs) && f < NFIELDS
  {
    forall r, q :: 0 <= r < |inputs| && 0 <= q < |inputs| ==> inputs[r].fields[f] == inputs[q].fields[f]
  }

  /** Ranks that state a node variable state the same. A rank may leave it unset, unless a negative one is stated:
      then 0 is the maximum, and the ranks that state the negative value find themselves in the wrong. */
  ghost predicate NodeVariableAgreed(inputs: seq<Input>, f: nat)
    requires WellFormed(inputs) && f < NFIELDS
  {
    forall r, q :: 0 <= r < |inputs| && 0 <= q < |inputs| && inputs[r].fields[f] != 0 ==>
      inputs[q].fields[f] == inputs[r].fields[f] || (inputs[q].fields[f] == 0 && inputs[r].fields[f] > 0)
  }

  ghost predicate Agreed(inputs: seq<Input>)
    requires WellFormed(inputs)
  {
    && (forall f :: 0 <= f < NUM_NODES ==> AllEqual(inputs, f))
    && NodeVariableAgreed(inputs, NUM_NODES) && NodeVariableAgreed(inputs, NODE_SIZE)
  }

  ghost predicate AllPass(inputs: seq<Input>)
    requires WellFormed(inputs)
  {
    forall r :: 0 <= r < |inputs| ==> FieldsPass(inputs[r].fields, Mins(inputs), Maxs(inputs))
  }

  lemma VersionFieldPasses(inputs: seq<Input>, f: nat)
    requires WellFormed(inputs) && f < NUM_NODES
    ensures Mins(inputs)[f] == Maxs(inputs)[f] <==> AllEqual(inputs, f)
  {
  }

  lemma NodeFieldPasses(inputs: seq<Input>, f: nat)
    requires WellFormed(inputs) && NUM_NODES <= f < NFIELDS
    ensures (forall r :: 0 <= r < |inputs| ==> Consistent(inputs[r].fields, Mins(inputs), Maxs(inputs), f))
       <==> NodeVariableAgreed(inputs, f)
  {
  }

  lemma AllPassMeansAgreed(inputs: seq<Input>)
    requires WellFormed(inputs) && AllPass(inputs)
    ensures Agreed(inputs)
  {
    forall f | 0 <= f < NFIELDS, r | 0 <= r < |inputs|
      ensures Consistent(inputs[r].fields, Mins(inputs), Maxs(inputs), f)
    {
      assert FieldsPass(inputs[r].fields, Mins(inputs), Maxs(inputs));
    }
    NodeFieldPasses(inputs, NUM_NODES);
    NodeFieldPasses(inputs, NODE_SIZE);
    forall f | 0 <= f < NUM_NODES
      ensures AllEqual(inputs, f)
    {
      assert Consistent(inputs[0].fields, Mins(inputs), Maxs(inputs), f);
      VersionFieldPasses(inputs, f);
    }
  }

  lemma AgreedPasses(inputs: seq<Input>, r: nat, f: nat)
    requires WellFormed(inputs) && Agreed(inputs) && r < |inputs| && f < NFIELDS
    ensures Consistent(inputs[r].fields, Mins(inputs), Maxs(inputs), f)
  {
    if f < NUM_NODES {
      VersionFieldPasses(inputs, f);
    } else {
      NodeFieldPasses(inputs, f);
    }
  }

  /** The field loop passes on every rank exactly if the ranks agree. */
  lemma AllPassIffAgreed(inputs: seq<Input>)
    requires WellFormed(inputs)
    ensures AllPass(inputs) <==> Agreed(inputs)
  {
    if AllPass(inputs) {
      AllPassMeansAgreed(inputs);
    }
    if Agreed(inputs) {
      forall r | 0 <= r < |inputs|
        ensures FieldsPass(inputs[r].fields, Mins(inputs), Maxs(inputs))
      {
        forall f | 0 <= f < NFIELDS
          ensures Consistent(inputs[r].fields, Mins(inputs), Maxs(inputs), f)
        {
          AgreedPasses(inputs, r, f);
        }
      }
    }
  }

  /** With node variables that are not negative, that is: versions equal, and the non-zero statements equal. */
  lemma AgreedNonNegative(inputs: seq<Input>)
    requires WellFormed(inputs)
    requires forall r, f :: 0 <= r < |inputs| && NUM_NODES <= f < NFIELDS ==> inputs[r].fields[f] >= 0
    ensures Agreed(inputs) <==>
              && (forall f :: 0 <= f < NUM_NODES ==> AllEqual(inputs, f))
              && (forall f, r, q | NUM_NODES <= f < NFIELDS && 0 <= r < |inputs| && 0 <= q < |inputs| ::
                    inputs[r].fields[f] == 0 || inputs[q].fields[f] == 0 || inputs[r].fields[f] == inputs[q].fields[f])
  {
  }

  /** An unset variable does not defer to a negative statement: of two ranks that state -1 and nothing, the first is
      refused. */
  lemma UnsetDoesNotDefer(a: Input, b: Input)
    requires a.fields == seq(NFIELDS, f => if f == NUM_NODES then -1 else 0) && b.fields == seq(NFIELDS, _ => 0)
    ensures WellFormed([a, b])
    ensures !FieldsPass(a.fields, Mins([a, b]), Maxs([a, b])) && FieldsPass(b.fields, Mins([a, b]), Maxs([a, b]))
  {
    assert [a, b][..1] == [a];
    assert forall f :: 0 <= f < NFIELDS ==> Greatest([a, b], f) == 0;
    assert !Consistent(a.fields, Mins([a, b]), Maxs([a, b]), NUM_NODES);
    assert forall f :: 0 <= f < NUM_NODES ==> Least([a, b], f) == 0;
  }
}
