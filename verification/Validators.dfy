/** The validators of a ritual. */
module Validators {
  import opened Wrappers
  import opened Interpolation
  import opened Counting
  import opened Groups

  datatype Validator = Validator(address: string, publicKey: G2, shareIndex: nat)

  function Indices(validators: seq<Validator>): seq<nat> {
    seq(|validators|, i requires 0 <= i < |validators| => validators[i].shareIndex)
  }

  /** The first share index that repeats an earlier one, if any */
  function DuplicateIndex(validators: seq<Validator>): Option<nat> {
    if validators == [] then None
    else
      var n := |validators| - 1;
      var earlier := DuplicateIndex(validators[..n]);
      if earlier.Some? then earlier
      else if validators[n].shareIndex in Indices(validators[..n]) then Some(validators[n].shareIndex)
      else None
  }

  /** Validator j is the first to repeat the index of an earlier one. */
  ghost predicate FirstRepeats(validators: seq<Validator>, j: nat) {
    && j < |validators| && Distinct(Indices(validators[..j]))
    && validators[j].shareIndex in Indices(validators[..j])
  }

  lemma {:induction false} DuplicateFreeIsDistinct(validators: seq<Validator>)
    ensures DuplicateIndex(validators).None? <==> Distinct(Indices(validators))
    ensures DuplicateIndex(validators).Some? ==>
              exists j: nat :: FirstRepeats(validators, j) && validators[j].shareIndex == DuplicateIndex(validators).value
  {
    if validators != [] {
      var n := |validators| - 1;
      DuplicateFreeIsDistinct(validators[..n]);
      assert Indices(validators) == Indices(validators[..n]) + [validators[n].shareIndex];
      DistinctAppend(Indices(validators[..n]), validators[n].shareIndex);
      if DuplicateIndex(validators[..n]).Some? {
        var j: nat :| FirstRepeats(validators[..n], j) &&
          validators[..n][j].shareIndex == DuplicateIndex(validators[..n]).value;
        assert validators[..n][..j] == validators[..j];
        assert FirstRepeats(validators, j);
      } else if validators[n].shareIndex in Indices(validators[..n]) {
        assert FirstRepeats(validators, n);
      }
    }
  }

  lemma DistinctAppend<T>(s: seq<T>, x: T)
    ensures Distinct(s + [x]) <==> Distinct(s) && x !in s
  {
    if Distinct(s + [x]) {
      assert forall i :: 0 <= i < |s| ==> (s + [x])[i] == s[i];
      assert (s + [x])[|s|] == x;
    }
  }

  lemma {:induction false} DuplicateInPrefix(validators: seq<Validator>, i: nat)
    requires i <= |validators| && DuplicateIndex(validators[..i]).Some?
    ensures DuplicateIndex(validators) == DuplicateIndex(validators[..i])
  {
    if i == |validators| {
      assert validators[..i] == validators;
    } else {
      var n := |validators| - 1;
      assert validators[..n][..i] == validators[..i];
      DuplicateInPrefix(validators[..n], i);
    }
  }

  /** One more validator: its index repeats an earlier one, or there is still no duplicate. */
  lemma DuplicateStep(validators: seq<Validator>, i: nat)
    requires i < |validators| && DuplicateIndex(validators[..i]) == None
    ensures var earlier, index := Members(Indices(validators[..i])), validators[i].shareIndex;
            && DuplicateIndex(validators[..i + 1]) == (if index in earlier then Some(index) else None)
            && Members(Indices(validators[..i + 1])) == earlier + {index}
  {
    assert validators[..i + 1][..i] == validators[..i];
    assert Indices(validators[..i + 1]) == Indices(validators[..i]) + [validators[i].shareIndex];
  }

  lemma NoDuplicateAtFirst(validators: seq<Validator>)
    ensures DuplicateIndex(validators[..0]) == None && Members(Indices(validators[..0])) == {}
  {
  }

  method AssertNoShareDuplicates(validators: seq<Validator>) returns (r: Result<()>)
    ensures r == match DuplicateIndex(validators)
                 case None => Ok(())
                 case Some(index) => Err(DuplicatedShareIndex(index))
    ensures r.Ok? <==> Distinct(Indices(validators))
  {
    hide DuplicateIndex;
    DuplicateFreeIsDistinct(validators);
    NoDuplicateAtFirst(validators);
    var seen: set<nat> := {};
    for i := 0 to |validators|
      invariant seen == Members(Indices(validators[..i]))
      invariant DuplicateIndex(validators[..i]) == None
    {
      var index := validators[i].shareIndex;
      DuplicateStep(validators, i);
      if index in seen {
        DuplicateInPrefix(validators, i + 1);
        return Err(DuplicatedShareIndex(index));
      } else {
        seen := seen + {index};
      }
    }
    assert validators[..|validators|] == validators;
    return Ok(());
  }
}
