/** What a whole read promises, stated on `Read`. */
module ReaderProperties {
  import opened Wrappers
  import opened Text
  import opened TnmData
  import opened Naming
  import opened Extraction
  import opened Grouping
  import opened Layers
  import opened Reader

  function ReadReceivers(rs: seq<Receiver>): Result<seq<Layer>, Error>
  {
    Read(Parsed(Document(Some(rs))))
  }

  /** The distinct level keys among the kept results. */
  function KeySet(ts: seq<Tagged>): set<string>
  {
    set t | t in ts :: t.key
  }

  /** Without a `receivers` element the read reports it and builds nothing. */
  lemma NoReceiversElement()
    ensures Read(Parsed(Document(None))) == Failure(NoReceivers)
    ensures Read(Missing) == Failure(FileDoesNotExist)
  {
  }

  /** A calculated entry whose level is not a number aborts the whole read: no layer is built. */
  lemma UnreadableLevelAborts(rs: seq<Receiver>, i: nat, j: nat)
    requires i < |rs| && rs[i].results.Some? && j < |rs[i].results.value|
    requires rs[i].results.value[j].calculated.Some?
    requires IsCalculated(rs[i].results.value[j].calculated.value)
    requires rs[i].results.value[j].withBarrierLevel.None?
      || rs[i].results.value[j].noBarrierLevel.None?
      || rs[i].results.value[j].noiseReductionDifference.None?
    ensures ReadReceivers(rs) == Failure(ReadFailed)
  {
    var e := rs[i].results.value[j];
    assert e in rs[i].results.value && EntryBroken(e);
    assert rs[i] in rs && ReceiverBroken(rs[i]);
  }

  /** A receiver whose point is unreadable aborts the read, even when it has no results. */
  lemma UnreadablePointAborts(rs: seq<Receiver>, i: nat)
    requires i < |rs| && (rs[i].x.None? || rs[i].y.None? || rs[i].z.None?)
    ensures ReadReceivers(rs) == Failure(ReadFailed)
  {
    assert rs[i] in rs && ReceiverBroken(rs[i]);
  }

  /** A readable receiver without `ReceiverResults` changes nothing: not an error, no result. */
  lemma ReceiverWithoutResults(a: seq<Receiver>, r: Receiver, b: seq<Receiver>)
    requires !HeaderBroken(r) && r.results.None?
    ensures ReadReceivers(a + [r] + b) == ReadReceivers(a + b)
  {
    ReceiverWithoutResultsKept(a, r, b);
    ReceiverWithoutResultsBroken(a, r, b);
  }

  lemma ReceiverWithoutResultsKept(a: seq<Receiver>, r: Receiver, b: seq<Receiver>)
    requires r.results.None?
    ensures Kept(a + [r] + b) == Kept(a + b)
  {
    FlatMapSkip(a, r, b, KeptOf);
  }

  lemma ReceiverWithoutResultsBroken(a: seq<Receiver>, r: Receiver, b: seq<Receiver>)
    requires !HeaderBroken(r) && r.results.None?
    ensures Broken(a + [r] + b) <==> Broken(a + b)
  {
    if Broken(a + [r] + b) {
      var x :| x in a + [r] + b && ReceiverBroken(x);
      assert x in a + b;
    }
    if Broken(a + b) {
      var x :| x in a + b && ReceiverBroken(x);
      assert x in a + [r] + b;
    }
  }

  /** Removing every not-calculated entry from the report changes nothing: they never show. */
  lemma UncalculatedNeverShown(rs: seq<Receiver>)
    ensures ReadReceivers(Prune(rs)) == ReadReceivers(rs)
  {
    UncalculatedIgnored(rs);
  }

  lemma {:induction false} DistinctCard(s: seq<string>)
    requires Distinct(s)
    ensures |set x | x in s| == |s|
  {
    if s != [] {
      var front := s[..|s| - 1];
      var last := s[|s| - 1];
      DistinctCard(front);
      assert last !in front;
      assert (set x | x in s) == (set x | x in front) + {last};
    }
  }

  /**
   * A read that does not fail builds one layer per distinct level key, all
   * titles distinct, and its layers hold exactly the kept results.
   */
  lemma OneLayerPerKey(rs: seq<Receiver>)
    requires !Broken(rs)
    ensures ReadReceivers(rs).Success?
    ensures |ReadReceivers(rs).value| == |KeySet(Kept(rs))|
    ensures forall a, b :: 0 <= a < b < |ReadReceivers(rs).value| ==>
      ReadReceivers(rs).value[a].title != ReadReceivers(rs).value[b].title
    ensures TotalFeatures(ReadReceivers(rs).value) == |Kept(rs)|
  {
    assert ReadReceivers(rs) == Success(LayersOf(GroupSpec(Kept(rs))));
    LayersPerKey(Kept(rs));
  }

  lemma LayersPerKey(ts: seq<Tagged>)
    ensures |LayersOf(GroupSpec(ts))| == |KeySet(ts)|
    ensures forall a, b :: 0 <= a < b < |LayersOf(GroupSpec(ts))| ==>
      LayersOf(GroupSpec(ts))[a].title != LayersOf(GroupSpec(ts))[b].title
    ensures TotalFeatures(LayersOf(GroupSpec(ts))) == |ts|
  {
    var g := GroupSpec(ts);
    KeyCount(ts);
    DistinctTitles(g);
    LayersHoldAllResults(g.order, g.groups);
    GroupSizesSum(ts);
  }

  lemma KeyCount(ts: seq<Tagged>)
    ensures |GroupSpec(ts).order| == |KeySet(ts)|
  {
    var order := GroupSpec(ts).order;
    DistinctCard(order);
    forall k | k in KeySet(ts) ensures k in order {
      var t :| t in ts && t.key == k;
      var i :| 0 <= i < |ts| && ts[i] == t;
      assert Keys(ts)[i] == k;
    }
    assert (set x | x in order) == KeySet(ts);
  }

  /**
   * The report with one receiver at (10, 20, 0) and one calculated result
   * "Pt_level_5" reads as one layer "Results Level 5" with one feature at
   * (10, 20) carrying the name "Pt" and the three levels.
   */
  lemma SingleResultReport(r: Receiver)
    requires r == Receiver(true, Some(10.0), Some(20.0), Some(0.0),
      Some([Entry(Some("true"), Some("Pt_level_5"), Some(45.2), Some(50.1), Some(4.9))]))
    ensures ReadReceivers([r]) == Success([Layer("Results Level 5",
      [Feature(PointXY(10.0, 20.0), Attributes("Pt", 45.2, 50.1, 4.9))])])
  {
    var e := r.results.value[0];
    var t := Tagged("5", ReceiverResult("Pt", 10.0, 20.0, 0.0, 45.2, 50.1, 4.9));
    SingleResultKept(e, r, t);
    SingleResultGroup(t);
    SingleResultLayers(Levels(["5"], map["5" := [t.result]]), t.result);
  }

  lemma SingleResultLayers(g: Levels, res: ReceiverResult)
    requires g == Levels(["5"], map["5" := [res]])
    ensures LayersOf(g) == [Layer("Results Level 5", [ToFeature(res)])]
  {
    var ls := LayersOf(g);
    assert |ls| == 1;
    assert LayerTitle("5") == "Results Level 5";
    assert Features([res]) == [ToFeature(res)];
    assert ls[0] == Layer("Results Level 5", [ToFeature(res)]);
  }

  lemma SingleResultName()
    ensures LevelKey("Pt_level_5") == "5" && DisplayName("Pt_level_5", "5") == "Pt"
  {
    assert "Pt" + "_level" == "Pt_level";
    assert !Contains("Pt" + "_level", Marker) by {
      forall i: nat ensures !OccursAt("Pt_level", Marker, i) {
        if i + 7 <= 8 {
          assert "Pt_level"[i..i + 7][6] == "Pt_level"[i + 6] != '_';
        }
      }
    }
    assert !Contains("5", Marker);
    SoleMarker("Pt", "5");
    assert "Pt" + Marker + "5" == "Pt_level_5";
  }

  lemma SingleResultKept(e: Entry, r: Receiver, t: Tagged)
    requires e == Entry(Some("true"), Some("Pt_level_5"), Some(45.2), Some(50.1), Some(4.9))
    requires r == Receiver(true, Some(10.0), Some(20.0), Some(0.0), Some([e]))
    requires t == Tagged("5", ReceiverResult("Pt", 10.0, 20.0, 0.0, 45.2, 50.1, 4.9))
    ensures !Broken([r]) && Kept([r]) == [t]
  {
    SingleResultName();
    LowerIsTrue("true");
    assert KeptEntry(10.0, 20.0, 0.0, e) == [t];
    assert [e][..0] == [];
    assert KeptEntries(10.0, 20.0, 0.0, [e]) == [t];
    assert KeptOf(r) == [t];
    assert [r][..0] == [];
    assert FlatMap([r], KeptOf) == FlatMap([], KeptOf) + KeptOf(r);
    assert !EntryBroken(e);
  }

  lemma SingleResultGroup(t: Tagged)
    requires t.key == "5"
    ensures GroupSpec([t]) == Levels(["5"], map["5" := [t.result]])
  {
    assert Keys([t]) == ["5"];
    assert ["5"][..0] == [];
    assert FirstSeen(["5"]) == ["5"];
    assert [t][..0] == [];
    assert Members([t], "5") == [t.result];
    assert GroupsOf([t]) == map["5" := [t.result]];
  }
}
