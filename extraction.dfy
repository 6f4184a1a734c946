/**
 * Which entries of a parsed report the reader keeps, which ones make it
 * give up, and the records it builds from the kept ones (in document order).
 */
module Extraction {
  import opened Wrappers
  import opened Text
  import opened TnmData
  import opened Naming

  /** `calculated.lower() == 'true'`. */
  predicate IsCalculated(flag: string)
  {
    Lower(flag) == "true"
  }

  /** An entry marked as not calculated: it is skipped before anything else of it is read. */
  predicate Uncalculated(e: Entry)
  {
    e.calculated.Some? && !IsCalculated(e.calculated.value)
  }

  /** Reading this entry raises: no flag text, or it is calculated and a field is missing or not a number. */
  predicate EntryBroken(e: Entry)
  {
    || e.calculated.None?
    || (IsCalculated(e.calculated.value)
        && (e.name.None? || e.withBarrierLevel.None? || e.noBarrierLevel.None? || e.noiseReductionDifference.None?))
  }

  /** Reading this receiver's name or point raises (this happens before its results are looked at). */
  predicate HeaderBroken(r: Receiver)
  {
    !r.hasName || r.x.None? || r.y.None? || r.z.None?
  }

  predicate ReceiverBroken(r: Receiver)
  {
    HeaderBroken(r) || (r.results.Some? && exists e :: e in r.results.value && EntryBroken(e))
  }

  /** Some receiver makes the read raise. */
  predicate Broken(rs: seq<Receiver>)
  {
    exists r :: r in rs && ReceiverBroken(r)
  }

  /** The record built for an entry of a receiver at (x, y, z): one if it is calculated and readable, none otherwise. */
  function KeptEntry(x: real, y: real, z: real, e: Entry): seq<Tagged>
  {
    if e.calculated.Some? && IsCalculated(e.calculated.value) && e.name.Some?
      && e.withBarrierLevel.Some? && e.noBarrierLevel.Some? && e.noiseReductionDifference.Some?
    then
      var key := LevelKey(e.name.value);
      [Tagged(key, ReceiverResult(DisplayName(e.name.value, key), x, y, z,
        e.withBarrierLevel.value, e.noBarrierLevel.value, e.noiseReductionDifference.value))]
    else
      []
  }

  /** The records built for a receiver's entries, in order; all carry the receiver's point. */
  function KeptEntries(x: real, y: real, z: real, es: seq<Entry>): seq<Tagged>
  {
    if es == [] then []
    else KeptEntries(x, y, z, es[..|es| - 1]) + KeptEntry(x, y, z, es[|es| - 1])
  }

  /** Every record built for a receiver's entries carries that receiver's point, and there is at most one per entry. */
  lemma {:induction false} KeptCarriesPoint(x: real, y: real, z: real, es: seq<Entry>)
    ensures |KeptEntries(x, y, z, es)| <= |es|
    ensures forall t :: t in KeptEntries(x, y, z, es) ==> t.result.x == x && t.result.y == y && t.result.z == z
  {
    if es != [] {
      KeptCarriesPoint(x, y, z, es[..|es| - 1]);
    }
  }

  /** The records built for one receiver; none when it has no `ReceiverResults`. */
  function KeptOf(r: Receiver): seq<Tagged>
  {
    if r.x.Some? && r.y.Some? && r.z.Some? && r.results.Some?
    then KeptEntries(r.x.value, r.y.value, r.z.value, r.results.value)
    else []
  }

  /** `f` applied to every element, the results joined in order. */
  function FlatMap<T, U>(xs: seq<T>, f: T -> seq<U>): seq<U>
  {
    if xs == [] then [] else FlatMap(xs[..|xs| - 1], f) + f(xs[|xs| - 1])
  }

  lemma {:induction false} FlatMapConcat<T, U>(a: seq<T>, b: seq<T>, f: T -> seq<U>)
    ensures FlatMap(a + b, f) == FlatMap(a, f) + FlatMap(b, f)
  {
    if b == [] {
      assert a + b == a;
    } else {
      var b' := b[..|b| - 1];
      FlatMapConcat(a, b', f);
      assert (a + b)[..|a + b| - 1] == a + b';
      assert (a + b)[|a + b| - 1] == b[|b| - 1];
    }
  }

  lemma FlatMapSnoc<T, U>(xs: seq<T>, i: nat, f: T -> seq<U>)
    requires i < |xs|
    ensures FlatMap(xs[..i + 1], f) == FlatMap(xs[..i], f) + f(xs[i])
  {
    assert xs[..i + 1][..i] == xs[..i];
  }

  /** An element that `f` maps to nothing can be dropped. */
  lemma FlatMapSkip<T, U>(a: seq<T>, x: T, b: seq<T>, f: T -> seq<U>)
    requires f(x) == []
    ensures FlatMap(a + [x] + b, f) == FlatMap(a + b, f)
  {
    FlatMapConcat(a + [x], b, f);
    FlatMapConcat(a, [x], f);
    FlatMapConcat(a, b, f);
    assert [x][..0] == [];
  }

  /** The records built for all receivers, in document order. */
  function Kept(rs: seq<Receiver>): seq<Tagged>
  {
    FlatMap(rs, KeptOf)
  }

  /** The report with every not-calculated entry taken out. */
  function PruneEntries(es: seq<Entry>): (kept: seq<Entry>)
    ensures forall e :: e in kept <==> e in es && !Uncalculated(e)
  {
    if es == [] then []
    else
      var front := PruneEntries(es[..|es| - 1]);
      var e := es[|es| - 1];
      assert es == es[..|es| - 1] + [e];
      if Uncalculated(e) then front else front + [e]
  }

  function PruneReceiver(r: Receiver): Receiver
  {
    if r.results.Some? then r.(results := Some(PruneEntries(r.results.value))) else r
  }

  function Prune(rs: seq<Receiver>): seq<Receiver>
  {
    seq(|rs|, i requires 0 <= i < |rs| => PruneReceiver(rs[i]))
  }

  /** Not-calculated entries add no record. */
  lemma {:induction false} PruneKeepsEntries(x: real, y: real, z: real, es: seq<Entry>)
    ensures KeptEntries(x, y, z, PruneEntries(es)) == KeptEntries(x, y, z, es)
  {
    if es != [] {
      var front := es[..|es| - 1];
      var e := es[|es| - 1];
      PruneKeepsEntries(x, y, z, front);
      if !Uncalculated(e) {
        var p := PruneEntries(front) + [e];
        assert p[..|p| - 1] == PruneEntries(front);
      }
    }
  }

  /** Not-calculated entries never make a receiver fail. */
  lemma PruneKeepsBroken(r: Receiver)
    ensures ReceiverBroken(PruneReceiver(r)) <==> ReceiverBroken(r)
  {
    if r.results.Some? {
      var es := r.results.value;
      if e :| e in es && EntryBroken(e) {
        assert !Uncalculated(e);
        assert e in PruneEntries(es);
      }
    }
  }

  /**
   * A not-calculated entry never shows up: taking all of them out of the
   * report changes neither whether the read fails nor any record it builds.
   */
  lemma {:induction false} UncalculatedIgnored(rs: seq<Receiver>)
    ensures Broken(Prune(rs)) <==> Broken(rs)
    ensures Kept(Prune(rs)) == Kept(rs)
  {
    if rs != [] {
      var n := |rs|;
      UncalculatedIgnored(rs[..n - 1]);
      assert Prune(rs)[..n - 1] == Prune(rs[..n - 1]);
      var r := rs[n - 1];
      if r.x.Some? && r.y.Some? && r.z.Some? && r.results.Some? {
        PruneKeepsEntries(r.x.value, r.y.value, r.z.value, r.results.value);
      }
      assert KeptOf(Prune(rs)[n - 1]) == KeptOf(r);
    }
    if Broken(rs) {
      var r :| r in rs && ReceiverBroken(r);
      var i :| 0 <= i < |rs| && rs[i] == r;
      PruneKeepsBroken(r);
      assert Prune(rs)[i] == PruneReceiver(r);
    }
    if Broken(Prune(rs)) {
      var r :| r in Prune(rs) && ReceiverBroken(r);
      var i :| 0 <= i < |rs| && Prune(rs)[i] == r;
      PruneKeepsBroken(rs[i]);
      assert rs[i] in rs;
    }
  }
}
