/** Level keys, display names and layer titles derived from result names. */
module Naming {
  import opened Text

  const Marker: string := "_level_"

  /** The key of results whose name has no level marker. */
  const NoLevelKey: string := "additional"

  /**
   * The level key of a result name: the last piece of `name.split("_level_")`
   * when the marker occurs, "additional" otherwise. A marker key never
   * contains the marker and closes the name right after a marker.
   */
  function LevelKey(name: string): (key: string)
    ensures Contains(name, Marker) ==> !Contains(key, Marker) && EndsWith(name, Marker + key)
  {
    if Contains(name, Marker) then
      LastPiece(name, Marker);
      var pieces := Split(name, Marker);
      pieces[|pieces| - 1]
    else
      NoLevelKey
  }

  /** `name.replace("_level_" + key, "")`. */
  function DisplayName(name: string, key: string): string
  {
    Remove(name, Marker + key)
  }

  /** The title of the layer that shows the results of one level key. */
  function LayerTitle(key: string): (title: string)
    ensures title == "Results" <==> key == NoLevelKey
  {
    if key == NoLevelKey then "Results" else "Results Level " + key
  }

  /**
   * A name without the marker is grouped under "additional", keeps its name
   * unchanged and ends up in the layer titled "Results".
   */
  lemma UnmarkedName(name: string)
    requires !Contains(name, Marker)
    ensures LevelKey(name) == NoLevelKey
    ensures DisplayName(name, LevelKey(name)) == name
    ensures LayerTitle(LevelKey(name)) == "Results"
  {
    var pat := Marker + NoLevelKey;
    forall i: nat ensures !OccursAt(name, pat, i) {
      if OccursAt(name, pat, i) {
        OccursPrefix(name, Marker, NoLevelKey, i);
        ContainsIff(name, Marker, i);
      }
    }
    RemoveAbsent(name, pat);
  }

  /**
   * A name `p + "_level_" + k` whose only marker is the one before `k`
   * (no marker ends inside `p + "_level"`, none lies in `k`) has key `k`
   * and display name `p`.
   */
  lemma SoleMarker(p: string, k: string)
    requires !Contains(p + "_level", Marker) && !Contains(k, Marker)
    ensures LevelKey(p + Marker + k) == k
    ensures DisplayName(p + Marker + k, k) == p
  {
    var s := p + Marker + k;
    var at := |p|;
    assert s[..at + 6] == p + "_level";
    assert s[at + 7..] == k;
    assert s[..at] == p;
    SoleMarkerSplit(s, at);
    SoleMarkerRemove(s, at, k);
  }

  /** With the first marker at `at` and none after it, the split has two pieces. */
  lemma SoleMarkerSplit(s: string, at: nat)
    requires at + 7 <= |s| && s[at..at + 7] == Marker
    requires !Contains(s[..at + 6], Marker) && !Contains(s[at + 7..], Marker)
    ensures LevelKey(s) == s[at + 7..]
  {
    forall i: nat | i < at ensures !OccursAt(s, Marker, i) {
      FreePrefix(s, Marker, at + 6, i);
    }
    FindFirst(s, Marker, 0, at);
    FindInFreeSuffix(s, Marker, at + 7);
    assert SplitFrom(s, Marker, at + 7) == [s[at + 7..]];
    assert Split(s, Marker) == [s[0..at]] + SplitFrom(s, Marker, at + 7);
  }

  /** Removing `"_level_" + k` from a name that ends in it and has no earlier marker leaves the front. */
  lemma SoleMarkerRemove(s: string, at: nat, k: string)
    requires at + 7 <= |s| && s[at..] == Marker + k
    requires !Contains(s[..at + 6], Marker)
    ensures DisplayName(s, k) == s[..at]
  {
    var pat := Marker + k;
    assert OccursAt(s, pat, at);
    forall i: nat | i < at ensures !OccursAt(s, pat, i) {
      if OccursAt(s, pat, i) {
        OccursPrefix(s, Marker, k, i);
        FreePrefix(s, Marker, at + 6, i);
      }
    }
    FindFirst(s, pat, 0, at);
    assert RemoveFrom(s, pat, |s|) == [];
  }

  /**
   * The key of `p + "_level_" + k` is `k` whenever `k` holds no marker and
   * `p` does not end in "_level": earlier markers in `p` do not matter, since
   * the only marker the scan could step over is one overlapping the last
   * marker on its leading underscore.
   */
  lemma MarkerKey(p: string, k: string)
    requires !EndsWith(p, "_level") && !Contains(k, Marker)
    ensures LevelKey(p + Marker + k) == k
  {
    var s := p + Marker + k;
    var at := |p|;
    assert s[at..at + 7] == Marker;
    assert s[at + 7..] == k;
    forall m: nat | at < m + 7 && m < at ensures !OccursAt(s, Marker, m) {
      NoStraddle(p, k, m);
    }
    MarkerKeyAt(s, at);
  }

  /** With no marker after the one at `at` and none overlapping it from the left, the key follows it. */
  lemma MarkerKeyAt(s: string, at: nat)
    requires OccursAt(s, Marker, at) && !Contains(s[at + 7..], Marker)
    requires forall m: nat :: at < m + 7 && m < at ==> !OccursAt(s, Marker, m)
    ensures LevelKey(s) == s[at + 7..]
  {
    ContainsIff(s, Marker, at);
    FindInFreeSuffix(s, Marker, at + 7);
    ScanReaches(s, Marker, at, 0);
    SplitFromLast(s, Marker, 0);
  }

  /** No marker starts in the last six characters of `p` and runs into the marker after `p`. */
  lemma NoStraddle(p: string, k: string, m: nat)
    requires !EndsWith(p, "_level") && |p| < m + 7 && m < |p|
    ensures !OccursAt(p + Marker + k, Marker, m)
  {
    var s := p + Marker + k;
    var d := |p| - m;
    assert s[|p|] == '_';
    if d < 6 {
      assert s[m..m + 7][d] == '_' != Marker[d];
    } else {
      assert s[m..m + 6] == p[|p| - 6..];
      assert s[m..m + 7][..6] == s[m..m + 6];
    }
  }

  /** A name ending right after a marker has the empty key and the layer "Results Level ". */
  lemma EmptyKey(p: string)
    requires !EndsWith(p, "_level")
    ensures LevelKey(p + Marker) == ""
    ensures LayerTitle(LevelKey(p + Marker)) == "Results Level "
    ensures !Contains(p + "_level", Marker) ==> DisplayName(p + Marker, "") == p
  {
    assert !Contains("", Marker);
    MarkerKey(p, "");
    assert p + Marker + "" == p + Marker;
    if !Contains(p + "_level", Marker) {
      SoleMarker(p, "");
    }
  }

  /** A name ending "_level_additional" joins the unmarked results in "Results". */
  lemma AdditionalSuffixMerges(p: string)
    requires !EndsWith(p, "_level")
    ensures LevelKey(p + Marker + NoLevelKey) == NoLevelKey
    ensures LayerTitle(LevelKey(p + Marker + NoLevelKey)) == "Results"
    ensures !Contains(p + "_level", Marker) ==> DisplayName(p + Marker + NoLevelKey, NoLevelKey) == p
  {
    forall i: nat ensures !OccursAt(NoLevelKey, Marker, i) {
      if i + 7 <= |NoLevelKey| {
        assert NoLevelKey[i..i + 7][0] == NoLevelKey[i] != '_';
      }
    }
    MarkerKey(p, NoLevelKey);
    if !Contains(p + "_level", Marker) {
      SoleMarker(p, NoLevelKey);
    }
  }

  /**
   * The key is the last piece of the split, not the text after the rightmost
   * marker: in "x_level_level_additional" the scan takes the marker at index 1,
   * and the overlapping one at index 7 is never found. So this name, although
   * it ends in "_level_additional", gets the key "level_additional" and does
   * not join "Results".
   */
  lemma OverlappingMarkerKey(p: string, k: string)
    requires p == "x" && k == "level_additional"
    ensures EndsWith(p + Marker + k, Marker + NoLevelKey)
    ensures LevelKey(p + Marker + k) == k != NoLevelKey
  {
    HeadFree(p + "_level");
    TailFree(k);
    SoleMarker(p, k);
    assert |k| != |NoLevelKey|;
    OverlapSuffix(p, k);
  }

  lemma OverlapSuffix(p: string, k: string)
    requires p == "x" && k == "level_additional"
    ensures EndsWith(p + Marker + k, Marker + NoLevelKey)
  {
    var front := p + "_level";
    assert p + Marker + k == front + (Marker + NoLevelKey);
    EndsWithConcat(front, Marker + NoLevelKey);
  }

  lemma HeadFree(head: string)
    requires head == "x_level"
    ensures !Contains(head, Marker)
  {
    forall i: nat ensures !OccursAt(head, Marker, i) {
      if i + 7 <= |head| {
        assert head[i..i + 7][0] == head[0] == 'x';
      }
    }
  }

  lemma TailFree(tail: string)
    requires tail == "level_additional"
    ensures !Contains(tail, Marker)
  {
    assert tail == "level" + "_" + "additional";
    assert '_' !in "level" && '_' !in "additional";
    forall i: nat | i + 1 < |tail| ensures tail[i] != '_' || tail[i + 1] != 'l' {
      if i < 5 {
        assert tail[i] in "level";
      } else if i > 5 {
        assert tail[i] == "additional"[i - 6];
      } else {
        assert tail[i + 1] == 'a';
      }
    }
    NoMarkerStart(tail);
  }

  /** A string in which no underscore is followed by 'l' holds no marker. */
  lemma NoMarkerStart(t: string)
    requires forall i: nat | i + 1 < |t| :: t[i] != '_' || t[i + 1] != 'l'
    ensures !Contains(t, Marker)
  {
    forall i: nat ensures !OccursAt(t, Marker, i) {
      if i + 7 <= |t| {
        assert t[i..i + 7][0] == t[i] && t[i..i + 7][1] == t[i + 1];
      }
    }
  }

  /** Distinct level keys get distinct layer titles. */
  lemma LayerTitleInjective(a: string, b: string)
    ensures LayerTitle(a) == LayerTitle(b) ==> a == b
  {
    if a != NoLevelKey && b != NoLevelKey && LayerTitle(a) == LayerTitle(b) {
      var prefix := "Results Level ";
      assert a == (prefix + a)[|prefix|..];
      assert b == (prefix + b)[|prefix|..];
    }
  }
}
