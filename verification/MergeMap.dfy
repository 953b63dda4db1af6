/** The three cross-linked maps that remember finished merges (src/bucket/BucketMergeMap.cpp). */
module MergeMap {
  import opened Wrappers

  type Hash(==, !new)

  datatype MergeKey = MergeKey(keepDeadEntries: bool, inputCurrBucket: Hash, inputSnapBucket: Hash, inputShadowBuckets: seq<Hash>)

  /** The merge takes a bucket in: as curr, as snap or as a shadow. */
  predicate TakesIn(k: MergeKey, h: Hash) {
    h == k.inputCurrBucket || h == k.inputSnapBucket || h in k.inputShadowBuckets
  }

  /** Every input once, however often the key names it. */
  method GetMergeKeyHashes(k: MergeKey) returns (hashes: set<Hash>)
    ensures forall h :: h in hashes <==> h == k.inputCurrBucket || h == k.inputSnapBucket || h in k.inputShadowBuckets
  {
    hashes := {k.inputCurrBucket, k.inputSnapBucket};
    for i := 0 to |k.inputShadowBuckets|
      invariant forall h :: h in hashes <==> h == k.inputCurrBucket || h == k.inputSnapBucket || h in k.inputShadowBuckets[..i]
    {
      hashes := hashes + {k.inputShadowBuckets[i]};
    }
  }

  /** How many recorded merges of `output` use `input`. */
  function Uses(merges: seq<(Hash, MergeKey)>, input: Hash, output: Hash): nat {
    if merges == [] then 0
    else
      var (o, k) := merges[|merges| - 1];
      Uses(merges[..|merges| - 1], input, output) + (if o == output && TakesIn(k, input) then 1 else 0)
  }

  lemma UsesAppend(merges: seq<(Hash, MergeKey)>, m: (Hash, MergeKey), input: Hash, output: Hash)
    ensures Uses(merges + [m], input, output) ==
            Uses(merges, input, output) + (if m.0 == output && TakesIn(m.1, input) then 1 else 0)
  {
    assert (merges + [m])[..|merges|] == merges;
  }

  lemma {:induction false} UsesRemove(merges: seq<(Hash, MergeKey)>, i: nat, input: Hash, output: Hash)
    requires i < |merges|
    ensures Uses(merges, input, output) ==
            Uses(merges[..i] + merges[i + 1..], input, output) +
            (if merges[i].0 == output && TakesIn(merges[i].1, input) then 1 else 0)
  {
    var n := |merges| - 1;
    if i < n {
      UsesRemove(merges[..n], i, input, output);
      var rest := merges[..i] + merges[i + 1..];
      assert rest[..|rest| - 1] == merges[..n][..i] + merges[..n][i + 1..];
    } else {
      assert merges[..i] + merges[i + 1..] == merges[..n];
    }
  }

  lemma {:induction false} UsesSome(merges: seq<(Hash, MergeKey)>, input: Hash, output: Hash)
    ensures Uses(merges, input, output) > 0 <==> exists k :: (output, k) in merges && TakesIn(k, input)
  {
    hide TakesIn;
    if merges != [] {
      var n := |merges| - 1;
      var (o, last) := merges[n];
      UsesSome(merges[..n], input, output);
      assert forall k :: (output, k) in merges <==> (output, k) in merges[..n] || (output, k) == (o, last) by {
        assert merges == merges[..n] + [(o, last)];
      }
      if o == output && TakesIn(last, input) { assert (output, last) in merges; }
    }
  }

  // ----- leaving an output's merges out -----

  /** The recorded merges that do not produce `output`. */
  function Others(merges: seq<(Hash, MergeKey)>, output: Hash): seq<(Hash, MergeKey)> {
    if merges == [] then []
    else
      var rest, m := Others(merges[..|merges| - 1], output), merges[|merges| - 1];
      if m.0 == output then rest else rest + [m]
  }

  lemma {:induction false} OthersHas(merges: seq<(Hash, MergeKey)>, output: Hash, m: (Hash, MergeKey))
    ensures m in Others(merges, output) <==> m in merges && m.0 != output
  {
    if merges != [] {
      OthersHas(merges[..|merges| - 1], output, m);
      assert merges == merges[..|merges| - 1] + [merges[|merges| - 1]];
    }
  }

  lemma {:induction false} UsesOthers(merges: seq<(Hash, MergeKey)>, output: Hash, i: Hash, o: Hash)
    ensures Uses(Others(merges, output), i, o) == if o == output then 0 else Uses(merges, i, o)
  {
    hide TakesIn;
    if merges != [] {
      var n := |merges| - 1;
      UsesOthers(merges[..n], output, i, o);
      UsesAppend(Others(merges[..n], output), merges[n], i, o);
    }
  }

  /** Dropping one of the output's own merges does not change the others. */
  lemma {:induction false} OthersRemove(merges: seq<(Hash, MergeKey)>, p: nat, output: Hash)
    requires p < |merges| && merges[p].0 == output
    ensures Others(merges[..p] + merges[p + 1..], output) == Others(merges, output)
  {
    var n := |merges| - 1;
    if p < n {
      OthersRemove(merges[..n], p, output);
      var rest := merges[..p] + merges[p + 1..];
      assert rest[..|rest| - 1] == merges[..n][..p] + merges[..n][p + 1..];
    } else {
      assert merges[..p] + merges[p + 1..] == merges[..n];
    }
  }

  lemma {:induction false} OthersAll(merges: seq<(Hash, MergeKey)>, output: Hash)
    requires forall i | 0 <= i < |merges| :: merges[i].0 != output
    ensures Others(merges, output) == merges
  {
    if merges != [] {
      OthersAll(merges[..|merges| - 1], output);
      assert merges == merges[..|merges| - 1] + [merges[|merges| - 1]];
    }
  }

  // ----- the coarse map and the reverse map -----

  /** The coarse map and the reverse map are inverses. */
  ghost predicate InverseOf(merges: seq<(Hash, MergeKey)>, m: map<MergeKey, Hash>) {
    (forall e | e in merges :: Get(m, e.1) == Some(e.0)) &&
    (forall k | k in m :: (m[k], k) in merges)
  }

  /** The maps after recordMerge are inverses exactly when the key had no other output. */
  lemma RecordedInverse(merges: seq<(Hash, MergeKey)>, m: map<MergeKey, Hash>, input: MergeKey, output: Hash)
    requires InverseOf(merges, m)
    ensures InverseOf(merges + [(output, input)], if input in m then m else m[input := output])
            <==> (input in m ==> m[input] == output)
  {
    assert (output, input) in merges + [(output, input)];
  }

  /** Forgetting an output keeps the maps inverse. */
  lemma ForgottenInverse(merges: seq<(Hash, MergeKey)>, m: map<MergeKey, Hash>, output: Hash, ret: set<MergeKey>)
    requires InverseOf(merges, m) && forall k :: k in ret <==> (output, k) in merges
    ensures InverseOf(Others(merges, output), m - ret)
    ensures forall k :: k in ret <==> Get(m, k) == Some(output)
  {
    hide Others;
    forall e ensures e in Others(merges, output) <==> e in merges && e.0 != output { OthersHas(merges, output, e); }
  }

  class BucketMergeMap {
    var mergeKeyToOutput: map<MergeKey, Hash>
    var inputToOutput: multiset<(Hash, Hash)>
    var outputToMergeKey: seq<(Hash, MergeKey)>

    /** The fine map counts, for every input and output, the recorded merges of that output using that input. */
    ghost predicate Counted()
      reads this
    {
      forall i: Hash, o: Hash :: inputToOutput[(i, o)] == Uses(outputToMergeKey, i, o)
    }

    ghost predicate Inverse()
      reads this
    {
      InverseOf(outputToMergeKey, mergeKeyToOutput)
    }

    constructor ()
      ensures Counted() && Inverse() && mergeKeyToOutput == map[] && outputToMergeKey == []
    {
      mergeKeyToOutput, inputToOutput, outputToMergeKey := map[], multiset{}, [];
    }

    /** Adds one (input, output) pair per input. */
    method AddPairs(inputs: set<Hash>, output: Hash)
      modifies this`inputToOutput
      ensures forall i: Hash, o: Hash ::
                inputToOutput[(i, o)] == old(inputToOutput)[(i, o)] + (if o == output && i in inputs then 1 else 0)
    {
      var todo := inputs;
      while todo != {}
        invariant todo <= inputs
        invariant forall i: Hash, o: Hash ::
                    inputToOutput[(i, o)] == old(inputToOutput)[(i, o)] + (if o == output && i in inputs - todo then 1 else 0)
        decreases |todo|
      {
        var h :| h in todo;
        inputToOutput := inputToOutput + multiset{(h, output)};
        todo := todo - {h};
      }
    }

    /** Removes one (input, output) pair per input, where there is one. */
    method RemovePairs(inputs: set<Hash>, output: Hash)
      modifies this`inputToOutput
      ensures forall i: Hash, o: Hash ::
                inputToOutput[(i, o)] ==
                var was := old(inputToOutput)[(i, o)];
                if o == output && i in inputs && was > 0 then was - 1 else was
    {
      var todo := inputs;
      while todo != {}
        invariant todo <= inputs
        invariant forall i: Hash, o: Hash ::
                    inputToOutput[(i, o)] ==
                    var was := old(inputToOutput)[(i, o)];
                    if o == output && i in inputs - todo && was > 0 then was - 1 else was
        decreases |todo|
      {
        var h :| h in todo;
        inputToOutput := inputToOutput - multiset{(h, output)};
        todo := todo - {h};
      }
    }

    /**
      recordMerge keeps the counts whatever is recorded. It keeps the other two
      maps inverse exactly when the key is new or was recorded with this output.
     */
    method RecordMerge(input: MergeKey, output: Hash)
      requires Counted()
      modifies this
      ensures outputToMergeKey == old(outputToMergeKey) + [(output, input)]
      ensures mergeKeyToOutput == if input in old(mergeKeyToOutput) then old(mergeKeyToOutput) else old(mergeKeyToOutput)[input := output]
      ensures Counted()
      ensures old(Inverse()) ==> (Inverse() <==> (input in old(mergeKeyToOutput) ==> old(mergeKeyToOutput)[input] == output))
    {
      hide Uses, InverseOf;
      if InverseOf(outputToMergeKey, mergeKeyToOutput) { RecordedInverse(outputToMergeKey, mergeKeyToOutput, input, output); }
      if input !in mergeKeyToOutput {
        mergeKeyToOutput := mergeKeyToOutput[input := output];
      }
      outputToMergeKey := outputToMergeKey + [(output, input)];
      var hashes := GetMergeKeyHashes(input);
      AddPairs(hashes, output);
      forall i: Hash, o: Hash ensures inputToOutput[(i, o)] == Uses(outputToMergeKey, i, o) {
        UsesAppend(old(outputToMergeKey), (output, input), i, o);
      }
    }

    /**
      Every recorded merge producing `output` goes and is returned, no other
      does, and the counts follow. If the maps were inverse they stay so, and
      then no map mentions the output any more.
     */
    method ForgetAllMergesProducing(output: Hash) returns (ret: set<MergeKey>)
      requires Counted()
      modifies this
      ensures Counted()
      ensures forall k :: k in ret <==> (output, k) in old(outputToMergeKey)
      ensures outputToMergeKey == Others(old(outputToMergeKey), output)
      ensures mergeKeyToOutput == old(mergeKeyToOutput) - ret
      ensures forall i: Hash, o: Hash :: inputToOutput[(i, o)] == if o == output then 0 else old(inputToOutput)[(i, o)]
      ensures old(Inverse()) ==> Inverse() && forall k :: k in ret <==> Get(old(mergeKeyToOutput), k) == Some(output)
    {
      hide TakesIn, Uses, Others, InverseOf;
      ghost var start, was := outputToMergeKey, mergeKeyToOutput;
      ret := {};
      var p := 0;
      while p < |outputToMergeKey|
        invariant p <= |outputToMergeKey| && Counted() && mergeKeyToOutput == was - ret
        invariant Others(outputToMergeKey, output) == Others(start, output)
        invariant forall i | 0 <= i < p :: outputToMergeKey[i].0 != output
        invariant forall k :: (output, k) in start <==> k in ret || (output, k) in outputToMergeKey
        decreases |outputToMergeKey| - p
      {
        if outputToMergeKey[p].0 == output {
          ret := ret + {outputToMergeKey[p].1};
          Forget(p);
        } else {
          p := p + 1;
        }
      }
      OthersAll(outputToMergeKey, output);
      forall i: Hash, o: Hash ensures inputToOutput[(i, o)] == if o == output then 0 else old(inputToOutput)[(i, o)] {
        UsesOthers(start, output, i, o);
      }
      if InverseOf(start, was) { ForgottenInverse(start, was, output, ret); }
    }

    /** One recorded merge goes from all three maps. */
    method Forget(p: nat)
      requires Counted() && p < |outputToMergeKey|
      modifies this
      ensures var (output, key) := old(outputToMergeKey)[p];
              && Counted() && mergeKeyToOutput == old(mergeKeyToOutput) - {key}
              && outputToMergeKey == old(outputToMergeKey)[..p] + old(outputToMergeKey)[p + 1..]
              && Others(outputToMergeKey, output) == Others(old(outputToMergeKey), output)
              && forall e :: e in old(outputToMergeKey) <==> e == (output, key) || e in outputToMergeKey
    {
      hide Uses, Others;
      ghost var before := outputToMergeKey;
      var (output, key) := outputToMergeKey[p];
      var hashes := GetMergeKeyHashes(key);
      RemovePairs(hashes, output);
      mergeKeyToOutput := mergeKeyToOutput - {key};
      outputToMergeKey := outputToMergeKey[..p] + outputToMergeKey[p + 1..];
      forall i: Hash, o: Hash ensures inputToOutput[(i, o)] == Uses(outputToMergeKey, i, o) { UsesRemove(before, p, i, o); }
      OthersRemove(before, p, output);
      assert before == before[..p] + [(output, key)] + before[p + 1..];
    }

    /** findMergeFor: what the coarse map says, which is a recorded output when the maps are inverse. */
    method FindMergeFor(input: MergeKey) returns (output: Option<Hash>)
      ensures output == Get(mergeKeyToOutput, input)
      ensures Inverse() ==> forall o: Hash :: output == Some(o) <==> (o, input) in outputToMergeKey
    {
      output := Get(mergeKeyToOutput, input);
    }

    /** getOutputsUsingInput: exactly the outputs of recorded merges that use the input, as curr, snap or shadow. */
    method GetOutputsUsingInput(input: Hash) returns (outputs: set<Hash>)
      requires Counted()
      ensures forall o: Hash ::
                o in outputs <==>
                exists k :: (o, k) in outputToMergeKey &&
                            (input == k.inputCurrBucket || input == k.inputSnapBucket || input in k.inputShadowBuckets)
    {
      hide Uses;
      outputs := {};
      var rest := inputToOutput;
      while rest != multiset{}
        invariant forall i: Hash, o: Hash :: rest[(i, o)] <= inputToOutput[(i, o)]
        invariant forall o: Hash | o in outputs :: inputToOutput[(input, o)] > 0
        invariant forall o: Hash | inputToOutput[(input, o)] > 0 :: o in outputs || rest[(input, o)] > 0
        decreases |rest|
      {
        var pair :| pair in rest;
        if pair.0 == input {
          outputs := outputs + {pair.1};
          rest := rest[pair := 0];
        } else {
          rest := rest - multiset{pair};
        }
      }
      forall o: Hash ensures o in outputs <==> exists k :: (o, k) in outputToMergeKey && TakesIn(k, input) {
        UsesSome(outputToMergeKey, input, o);
      }
    }
  }

  /** Recording one key with two outputs leaves the maps at odds: the coarse map keeps only the first. */
  method ConflictingRecords(key: MergeKey, first: Hash, second: Hash) returns (maps: BucketMergeMap)
    requires first != second
    ensures maps.Counted() && !maps.Inverse()
    ensures maps.mergeKeyToOutput == map[key := first] && maps.outputToMergeKey == [(first, key), (second, key)]
  {
    hide Uses, InverseOf;
    maps := new BucketMergeMap();
    maps.RecordMerge(key, first);
    maps.RecordMerge(key, second);
    assert maps.mergeKeyToOutput == map[key := first];
    assert maps.outputToMergeKey == [(first, key), (second, key)];
  }
}
