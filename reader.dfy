/**
 * `read_tnm_file`: check the input, walk the receivers and their results,
 * group the calculated ones by level key, then build one layer per key.
 */
module Reader {
  import opened Wrappers
  import opened Text
  import opened TnmData
  import opened Naming
  import opened Extraction
  import opened Grouping
  import opened Layers

  /**
   * What a read produces: an error, or the layers in dict order. Every
   * error is decided before the first layer is built, so a failed read
   * builds no layer at all.
   */
  function Read(input: Input): Result<seq<Layer>, Error>
  {
    match input
    case Missing => Failure(FileDoesNotExist)
    case Unparsable => Failure(ReadFailed)
    case Parsed(root) =>
      match root.receivers
      case None => Failure(NoReceivers)
      case Some(rs) =>
        if Broken(rs) then Failure(ReadFailed) else Success(LayersOf(GroupSpec(Kept(rs))))
  }

  lemma BrokenSnoc(rs: seq<Receiver>, i: nat)
    requires i < |rs|
    ensures Broken(rs[..i + 1]) <==> Broken(rs[..i]) || ReceiverBroken(rs[i])
  {
    assert rs[..i + 1] == rs[..i] + [rs[i]];
  }

  lemma KeptSnoc(rs: seq<Receiver>, i: nat)
    requires i < |rs|
    ensures Kept(rs[..i + 1]) == Kept(rs[..i]) + KeptOf(rs[i])
  {
    FlatMapSnoc(rs, i, KeptOf);
  }

  lemma KeptEntriesSnoc(x: real, y: real, z: real, es: seq<Entry>, j: nat)
    requires j < |es|
    ensures KeptEntries(x, y, z, es[..j + 1]) == KeptEntries(x, y, z, es[..j]) + KeptEntry(x, y, z, es[j])
  {
    assert es[..j + 1][..j] == es[..j];
  }

  /** Grouping `done` and then one more tagged result is one Python step. */
  lemma AddOne(done: seq<Tagged>, more: seq<Tagged>, t: Tagged)
    ensures GroupSpec(done + (more + [t])) == Add(GroupSpec(done + more), t)
  {
    assert done + (more + [t]) == (done + more) + [t];
    GroupStep(done + more, t);
  }

  /**
   * The inner loop of `read_tnm_file` over one receiver's `ReceiverResult`
   * entries: skip the ones not calculated, give up on an unreadable one,
   * otherwise derive the key and display name and append to `levels`.
   */
  method AddReceiverResults(order: seq<string>, levels: map<string, seq<ReceiverResult>>,
                            x: real, y: real, z: real, entries: seq<Entry>, ghost done: seq<Tagged>)
    returns (failed: bool, order': seq<string>, levels': map<string, seq<ReceiverResult>>)
    requires Levels(order, levels) == GroupSpec(done)
    ensures failed <==> exists e :: e in entries && EntryBroken(e)
    ensures !failed ==> Levels(order', levels') == GroupSpec(done + KeptEntries(x, y, z, entries))
  {
    order', levels' := order, levels;
    var j := 0;
    assert done + KeptEntries(x, y, z, entries[..0]) == done;
    while j < |entries|
      invariant j <= |entries|
      invariant forall e :: e in entries[..j] ==> !EntryBroken(e)
      invariant Levels(order', levels') == GroupSpec(done + KeptEntries(x, y, z, entries[..j]))
    {
      var entry := entries[j];
      ghost var before := KeptEntries(x, y, z, entries[..j]);
      KeptEntriesSnoc(x, y, z, entries, j);
      assert entries[..j + 1] == entries[..j] + [entry];
      if entry.calculated.None? {
        assert entry in entries;
        return true, order', levels';
      }
      var calculated := Lower(entry.calculated.value) == "true";
      if calculated {
        if entry.name.None? || entry.withBarrierLevel.None? || entry.noBarrierLevel.None?
          || entry.noiseReductionDifference.None?
        {
          assert entry in entries;
          return true, order', levels';
        }
        var receiverName := entry.name.value;
        var levelKey := LevelKey(receiverName);
        var result := ReceiverResult(DisplayName(receiverName, levelKey), x, y, z,
          entry.withBarrierLevel.value, entry.noBarrierLevel.value, entry.noiseReductionDifference.value);
        ghost var t := Tagged(levelKey, result);
        assert KeptEntry(x, y, z, entry) == [t];
        AddOne(done, before, t);
        order', levels' := AppendToLevel(order', levels', levelKey, result);
      } else {
        assert KeptEntry(x, y, z, entry) == [];
        assert before + [] == before;
      }
      j := j + 1;
    }
    assert entries[..j] == entries;
    failed := false;
  }

  /**
   * `if level_key not in levels: levels[level_key] = []` followed by
   * `levels[level_key].append(result)`.
   */
  method AppendToLevel(order: seq<string>, levels: map<string, seq<ReceiverResult>>, levelKey: string, result: ReceiverResult)
    returns (order': seq<string>, levels': map<string, seq<ReceiverResult>>)
    ensures Levels(order', levels') == Add(Levels(order, levels), Tagged(levelKey, result))
  {
    order', levels' := order, levels;
    if levelKey !in levels' {
      levels' := levels'[levelKey := []];
      order' := order' + [levelKey];
    }
    levels' := levels'[levelKey := levels'[levelKey] + [result]];
    assert levelKey !in levels ==> levels' == levels[levelKey := [result]] by {
      assert [] + [result] == [result];
    }
  }

  /**
   * One pass of the outer loop of `read_tnm_file`: read the receiver's name
   * and point, skip it when it has no `ReceiverResults`, otherwise add its
   * results. It fails exactly when the receiver is unreadable, and otherwise
   * adds exactly the receiver's kept results.
   */
  method AddReceiver(order: seq<string>, levels: map<string, seq<ReceiverResult>>,
                     receiver: Receiver, ghost done: seq<Tagged>)
    returns (failed: bool, order': seq<string>, levels': map<string, seq<ReceiverResult>>)
    requires Levels(order, levels) == GroupSpec(done)
    ensures failed <==> ReceiverBroken(receiver)
    ensures !failed ==> Levels(order', levels') == GroupSpec(done + KeptOf(receiver))
  {
    order', levels' := order, levels;
    if !receiver.hasName || receiver.x.None? || receiver.y.None? || receiver.z.None? {
      return true, order', levels';
    }
    if receiver.results.None? {
      assert done + [] == done;
      return false, order', levels';
    }
    failed, order', levels' := AddReceiverResults(order, levels,
      receiver.x.value, receiver.y.value, receiver.z.value, receiver.results.value, done);
  }

  /**
   * The outer loop of `read_tnm_file` over the receivers. Either some
   * receiver makes the read fail, or the dict is the grouping of all kept
   * results.
   */
  method CollectLevels(receivers: seq<Receiver>) returns (outcome: Result<Levels, Error>)
    ensures outcome == if Broken(receivers) then Failure(ReadFailed) else Success(GroupSpec(Kept(receivers)))
  {
    var order: seq<string> := [];
    var levels: map<string, seq<ReceiverResult>> := map[];
    var i := 0;
    while i < |receivers|
      invariant i <= |receivers|
      invariant !Broken(receivers[..i])
      invariant Levels(order, levels) == GroupSpec(Kept(receivers[..i]))
    {
      KeptSnoc(receivers, i);
      BrokenSnoc(receivers, i);
      var failed;
      failed, order, levels := AddReceiver(order, levels, receivers[i], Kept(receivers[..i]));
      if failed {
        assert receivers[i] in receivers;
        return Failure(ReadFailed);
      }
      i := i + 1;
    }
    assert receivers[..i] == receivers;
    return Success(Levels(order, levels));
  }

  /**
   * `read_tnm_file` from the existence check on: the same checks in the
   * same order, the `levels` dict, then one layer per key in dict order.
   * The outcome is exactly `Read(input)`.
   */
  method ReadTnmFile(input: Input) returns (outcome: Result<seq<Layer>, Error>)
    ensures outcome == Read(input)
  {
    if input.Missing? {
      return Failure(FileDoesNotExist);
    }
    if input.Unparsable? {
      return Failure(ReadFailed);
    }
    if input.root.receivers.None? {
      return Failure(NoReceivers);
    }
    var collected := CollectLevels(input.root.receivers.value);
    if collected.Failure? {
      return Failure(collected.error);
    }
    var layers := BuildLayers(collected.value.order, collected.value.groups);
    return Success(layers);
  }

  /** The loop of `read_tnm_file` over `levels.items()`: one layer per key, titled after it. */
  method BuildLayers(order: seq<string>, levels: map<string, seq<ReceiverResult>>) returns (layers: seq<Layer>)
    requires forall k :: k in order ==> k in levels
    ensures layers == LayersOf(Levels(order, levels))
  {
    layers := [];
    for n := 0 to |order|
      invariant |layers| == n
      invariant forall m :: 0 <= m < n ==> layers[m] == LayersOf(Levels(order, levels))[m]
    {
      var layerName := LayerTitle(order[n]);
      var layer := CreateResultsLayer(layerName, levels[order[n]]);
      layers := layers + [layer];
    }
  }
}
