/**
 * Incremental patches and their ordering: the filter and sort that
 * DeserializeXMLToVersionInfo applies to the patch list, IncrementalPatchComparison,
 * and the PatchVersion names.
 *
 * VersionCode is not part of this model. It is a type parameter V with the three
 * things the helpers use: CompareTo, IsValid and ToString, bundled in a VersionScheme.
 * `a <= b` on version codes is read as `compare(a, b) <= 0`.
 */
module Versions {

  import opened Wrappers
  import opened Paths

  datatype VersionScheme<!V> = VersionScheme(compare: (V, V) -> int, isValid: V -> bool, toText: V -> string)

  /** What List.Sort needs of a comparison: reflexive, antisymmetric in sign, transitive. */
  ghost predicate IsTotalPreorder<T(!new)>(cmp: (T, T) -> int)
  {
    && (forall a :: cmp(a, a) == 0)
    && (forall a, b :: cmp(a, b) < 0 <==> cmp(b, a) > 0)
    && (forall a, b, c :: cmp(a, b) <= 0 && cmp(b, c) <= 0 ==> cmp(a, c) <= 0)
  }

  datatype IncrementalPatch<V> = IncrementalPatch(fromVersion: V, toVersion: V)

  /** The patches RemoveAll keeps: both versions valid and ToVersion > FromVersion. */
  predicate IsRetained<V>(scheme: VersionScheme<V>, patch: IncrementalPatch<V>)
  {
    !(!scheme.isValid(patch.fromVersion) || !scheme.isValid(patch.toVersion)
      || scheme.compare(patch.toVersion, patch.fromVersion) <= 0)
  }

  /** List.RemoveAll with the rejection predicate of DeserializeXMLToVersionInfo. */
  function RemoveInvalidPatches<V(==,!new)>(scheme: VersionScheme<V>, patches: seq<IncrementalPatch<V>>): (r: seq<IncrementalPatch<V>>)
    ensures forall p :: multiset(r)[p] == if IsRetained(scheme, p) then multiset(patches)[p] else 0
  {
    if patches == [] then []
    else
      var rest := RemoveInvalidPatches(scheme, patches[1..]);
      assert patches == [patches[0]] + patches[1..];
      if IsRetained(scheme, patches[0]) then [patches[0]] + rest else rest
  }

  /** IncrementalPatchComparison: FromVersion ascending, then ToVersion descending. */
  function IncrementalPatchComparison<V>(scheme: VersionScheme<V>, patch1: IncrementalPatch<V>, patch2: IncrementalPatch<V>): int
  {
    var comparison := scheme.compare(patch1.fromVersion, patch2.fromVersion);
    if comparison != 0 then comparison
    else scheme.compare(patch2.toVersion, patch1.toVersion)
  }

  /**
   * A patch sorts before another exactly when it starts from a lower version,
   * or from an equivalent one and reaches a higher version (the bigger jump first).
   */
  lemma PatchComparisonMeaning<V(!new)>(scheme: VersionScheme<V>, p: IncrementalPatch<V>, q: IncrementalPatch<V>)
    requires IsTotalPreorder(scheme.compare)
    ensures IncrementalPatchComparison(scheme, p, q) < 0 <==>
              || scheme.compare(p.fromVersion, q.fromVersion) < 0
              || (scheme.compare(p.fromVersion, q.fromVersion) == 0 && scheme.compare(p.toVersion, q.toVersion) > 0)
  {
  }

  /** The patch comparison is itself a total preorder, so sorting by it is well defined. */
  lemma PatchComparisonIsTotalPreorder<V(!new)>(scheme: VersionScheme<V>)
    requires IsTotalPreorder(scheme.compare)
    ensures IsTotalPreorder((a, b) => IncrementalPatchComparison(scheme, a, b))
  {
    var cmp := scheme.compare;
    forall a, b, c | IncrementalPatchComparison(scheme, a, b) <= 0 && IncrementalPatchComparison(scheme, b, c) <= 0
      ensures IncrementalPatchComparison(scheme, a, c) <= 0
    {
      PatchTransitive(scheme, a, b, c);
    }
  }

  lemma PatchTransitive<V(!new)>(scheme: VersionScheme<V>, a: IncrementalPatch<V>, b: IncrementalPatch<V>, c: IncrementalPatch<V>)
    requires IsTotalPreorder(scheme.compare)
    requires IncrementalPatchComparison(scheme, a, b) <= 0 && IncrementalPatchComparison(scheme, b, c) <= 0
    ensures IncrementalPatchComparison(scheme, a, c) <= 0
  {
    var cmp := scheme.compare;
    assert cmp(a.fromVersion, c.fromVersion) <= 0;
    if cmp(a.fromVersion, c.fromVersion) == 0 {
      // a ~ c on FromVersion forces a ~ b ~ c on it, and then ToVersion decides
      assert cmp(c.fromVersion, a.fromVersion) == 0;
      assert cmp(a.fromVersion, b.fromVersion) == 0 && cmp(b.fromVersion, c.fromVersion) == 0;
      assert cmp(c.toVersion, b.toVersion) <= 0 && cmp(b.toVersion, a.toVersion) <= 0;
    }
  }

  ghost predicate IsSortedByPatchComparison<V>(scheme: VersionScheme<V>, s: seq<IncrementalPatch<V>>)
  {
    forall i, j :: 0 <= i < j < |s| ==> IncrementalPatchComparison(scheme, s[i], s[j]) <= 0
  }

  /** Insertion into a sorted list, in front of the first element it does not follow. */
  function Insert<V(==,!new)>(scheme: VersionScheme<V>, patch: IncrementalPatch<V>, sorted: seq<IncrementalPatch<V>>): (r: seq<IncrementalPatch<V>>)
    ensures multiset(r) == multiset(sorted) + multiset{patch}
  {
    if sorted == [] then [patch]
    else if IncrementalPatchComparison(scheme, patch, sorted[0]) <= 0 then [patch] + sorted
    else
      assert sorted == [sorted[0]] + sorted[1..];
      [sorted[0]] + Insert(scheme, patch, sorted[1..])
  }

  lemma PatchAntisymmetric<V(!new)>(scheme: VersionScheme<V>, p: IncrementalPatch<V>, q: IncrementalPatch<V>)
    requires IsTotalPreorder(scheme.compare)
    requires IncrementalPatchComparison(scheme, p, q) > 0
    ensures IncrementalPatchComparison(scheme, q, p) < 0
  {
    var cmp := scheme.compare;
    if cmp(p.fromVersion, q.fromVersion) == 0 {
      assert cmp(q.fromVersion, p.fromVersion) == 0;
    }
  }

  /** Every element of the insertion is the inserted patch or came from the list. */
  lemma InsertElements<V(!new)>(scheme: VersionScheme<V>, patch: IncrementalPatch<V>, sorted: seq<IncrementalPatch<V>>, x: IncrementalPatch<V>)
    requires x in Insert(scheme, patch, sorted)
    ensures x == patch || x in sorted
  {
    assert x in multiset(Insert(scheme, patch, sorted));
  }

  /** Prepending an element that precedes every element keeps a list sorted. */
  lemma ConsSorted<V>(scheme: VersionScheme<V>, head: IncrementalPatch<V>, rest: seq<IncrementalPatch<V>>)
    requires IsSortedByPatchComparison(scheme, rest)
    requires forall x :: x in rest ==> IncrementalPatchComparison(scheme, head, x) <= 0
    ensures IsSortedByPatchComparison(scheme, [head] + rest)
  {
    var r := [head] + rest;
    forall i, j | 0 <= i < j < |r| ensures IncrementalPatchComparison(scheme, r[i], r[j]) <= 0 {
      assert r[j] == rest[j - 1];
      if i > 0 { assert r[i] == rest[i - 1]; }
    }
  }

  lemma {:induction false} InsertKeepsSorted<V(!new)>(scheme: VersionScheme<V>, patch: IncrementalPatch<V>, sorted: seq<IncrementalPatch<V>>)
    requires IsTotalPreorder(scheme.compare)
    requires IsSortedByPatchComparison(scheme, sorted)
    ensures IsSortedByPatchComparison(scheme, Insert(scheme, patch, sorted))
    decreases |sorted|
  {
    if sorted == [] {
    } else if IncrementalPatchComparison(scheme, patch, sorted[0]) <= 0 {
      forall x | x in sorted ensures IncrementalPatchComparison(scheme, patch, x) <= 0 {
        PatchTransitive(scheme, patch, sorted[0], x);
      }
      ConsSorted(scheme, patch, sorted);
    } else {
      InsertKeepsSorted(scheme, patch, sorted[1..]);
      PatchAntisymmetric(scheme, patch, sorted[0]);
      var rest := Insert(scheme, patch, sorted[1..]);
      forall x | x in rest ensures IncrementalPatchComparison(scheme, sorted[0], x) <= 0 {
        InsertElements(scheme, patch, sorted[1..], x);
        if x != patch {
          var k :| 0 <= k < |sorted[1..]| && sorted[1..][k] == x;
          assert sorted[k + 1] == x;
        }
      }
      ConsSorted(scheme, sorted[0], rest);
    }
  }

  /**
   * The sorted patch list: List.Sort with IncrementalPatchComparison. List.Sort is
   * not stable, so the only promise is a permutation in comparison order; this
   * insertion sort is one such order.
   */
  function SortPatches<V(==,!new)>(scheme: VersionScheme<V>, patches: seq<IncrementalPatch<V>>): (r: seq<IncrementalPatch<V>>)
    requires IsTotalPreorder(scheme.compare)
    ensures multiset(r) == multiset(patches)
    ensures IsSortedByPatchComparison(scheme, r)
  {
    if patches == [] then []
    else
      assert patches == [patches[0]] + patches[1..];
      var rest := SortPatches(scheme, patches[1..]);
      InsertKeepsSorted(scheme, patches[0], rest);
      Insert(scheme, patches[0], rest)
  }

  /**
   * The patch list a loaded manifest carries: exactly the retained input patches,
   * counted with multiplicity, ordered by FromVersion ascending and, between equal
   * FromVersions, by ToVersion descending; every one has ToVersion > FromVersion.
   */
  lemma NormalisedPatchList<V(!new)>(scheme: VersionScheme<V>, patches: seq<IncrementalPatch<V>>)
    requires IsTotalPreorder(scheme.compare)
    ensures var r := SortPatches(scheme, RemoveInvalidPatches(scheme, patches));
      && (forall p :: multiset(r)[p] == if IsRetained(scheme, p) then multiset(patches)[p] else 0)
      && (forall i :: 0 <= i < |r| ==> scheme.compare(r[i].fromVersion, r[i].toVersion) < 0)
      && (forall i, j :: 0 <= i < j < |r| ==> scheme.compare(r[i].fromVersion, r[j].fromVersion) <= 0)
      && (forall i, j :: 0 <= i < j < |r| && scheme.compare(r[i].fromVersion, r[j].fromVersion) == 0 ==>
            scheme.compare(r[i].toVersion, r[j].toVersion) >= 0)
  {
    var kept := RemoveInvalidPatches(scheme, patches);
    var r := SortPatches(scheme, kept);
    forall i | 0 <= i < |r| ensures scheme.compare(r[i].fromVersion, r[i].toVersion) < 0 {
      assert multiset(kept)[r[i]] > 0 by { assert r[i] in multiset(r); }
      assert IsRetained(scheme, r[i]);
    }
    forall i, j | 0 <= i < j < |r|
      ensures scheme.compare(r[i].fromVersion, r[j].fromVersion) <= 0
      ensures scheme.compare(r[i].fromVersion, r[j].fromVersion) == 0 ==>
                scheme.compare(r[i].toVersion, r[j].toVersion) >= 0
    {
      SortedPairOrder(scheme, r[i], r[j]);
    }
  }

  lemma SortedPairOrder<V(!new)>(scheme: VersionScheme<V>, p: IncrementalPatch<V>, q: IncrementalPatch<V>)
    requires IsTotalPreorder(scheme.compare)
    requires IncrementalPatchComparison(scheme, p, q) <= 0
    ensures scheme.compare(p.fromVersion, q.fromVersion) <= 0
    ensures scheme.compare(p.fromVersion, q.fromVersion) == 0 ==> scheme.compare(p.toVersion, q.toVersion) >= 0
  {
  }

  // ----- patch names -----

  /** PatchVersionBrief: FromVersion + "_" + ToVersion. */
  function PatchVersionBrief<V>(scheme: VersionScheme<V>, patch: IncrementalPatch<V>): string
  {
    scheme.toText(patch.fromVersion) + "_" + scheme.toText(patch.toVersion)
  }

  /** The body shared by both PatchVersion overloads: dots become underscores, joined by "__". */
  function VersionPairName(fromText: string, toText: string): string
  {
    ReplaceChar(fromText, '.', '_') + "__" + ReplaceChar(toText, '.', '_')
  }

  /** PatchVersion of an IncrementalPatch. */
  function PatchVersion<V>(scheme: VersionScheme<V>, patch: IncrementalPatch<V>): string
  {
    VersionPairName(scheme.toText(patch.fromVersion), scheme.toText(patch.toVersion))
  }

  /** Version text the name can be read back from: no '_', no "..", no trailing '.'. */
  predicate IsDottedVersionText(v: string)
  {
    && '_' !in v
    && (|v| > 0 ==> v[|v| - 1] != '.')
    && forall i :: 0 <= i < |v| - 1 ==> !(v[i] == '.' && v[i + 1] == '.')
  }

  /** The text before and after the first occurrence of `sep`. */
  function SplitAtFirst(s: string, sep: string): (r: Option<(string, string)>)
    requires |sep| > 0
    decreases |s|
  {
    if |s| < |sep| then None
    else if s[..|sep|] == sep then Some(([], s[|sep|..]))
    else
      var rest := SplitAtFirst(s[1..], sep);
      if rest.None? then None else Some(([s[0]] + rest.value.0, rest.value.1))
  }

  /** A split joins back into the text it came from. */
  lemma {:induction false} SplitAtFirstJoins(s: string, sep: string)
    requires |sep| > 0
    ensures var r := SplitAtFirst(s, sep); r.Some? ==> r.value.0 + sep + r.value.1 == s
    decreases |s|
  {
    if |s| >= |sep| && s[..|sep|] != sep {
      SplitAtFirstJoins(s[1..], sep);
      var rest := SplitAtFirst(s[1..], sep);
      if rest.Some? {
        var before, after := rest.value.0, rest.value.1;
        assert [s[0]] + before + sep + after == [s[0]] + (before + sep + after);
        assert [s[0]] + s[1..] == s;
      }
    } else if |s| >= |sep| {
      assert s[..|sep|] + s[|sep|..] == s;
    }
  }

  /** Reads a PatchVersion name back into its two version texts. */
  function ParseVersionPairName(name: string): Option<(string, string)>
  {
    match SplitAtFirst(name, "__")
    case None => None
    case Some((before, after)) => Some((ReplaceChar(before, '_', '.'), ReplaceChar(after, '_', '.')))
  }

  lemma {:induction false} SplitAtFirstDoubleUnderscore(a: string, b: string)
    requires (|a| > 0 ==> a[|a| - 1] != '_')
    requires forall i :: 0 <= i < |a| - 1 ==> !(a[i] == '_' && a[i + 1] == '_')
    ensures SplitAtFirst(a + "__" + b, "__") == Some((a, b))
    decreases |a|
  {
    var s := a + "__" + b;
    if a == [] {
      assert s[..2] == "__" && s[2..] == b;
    } else {
      assert s[..2] != "__" by {
        if |a| == 1 { assert s[1] == '_' && s[0] == a[0]; } else { assert s[0] == a[0] && s[1] == a[1]; }
      }
      assert s[1..] == a[1..] + "__" + b;
      SplitAtFirstDoubleUnderscore(a[1..], b);
      assert [a[0]] + a[1..] == a;
    }
  }

  /** PatchVersion names read back into the version texts they were built from. */
  lemma VersionPairNameRoundTrip(fromText: string, toText: string)
    requires IsDottedVersionText(fromText) && '_' !in toText
    ensures ParseVersionPairName(VersionPairName(fromText, toText)) == Some((fromText, toText))
  {
    var a, b := ReplaceChar(fromText, '.', '_'), ReplaceChar(toText, '.', '_');
    forall i | 0 <= i < |a| - 1 ensures !(a[i] == '_' && a[i + 1] == '_') {
      assert fromText[i] in fromText && fromText[i + 1] in fromText;
    }
    if |a| > 0 { assert fromText[|a| - 1] in fromText; }
    SplitAtFirstDoubleUnderscore(a, b);
    ReplaceCharUndo(fromText, '.', '_');
    ReplaceCharUndo(toText, '.', '_');
  }

  /** Distinct readable version pairs never share a PatchVersion name. */
  lemma PatchVersionInjective<V>(scheme: VersionScheme<V>, p: IncrementalPatch<V>, q: IncrementalPatch<V>)
    requires IsDottedVersionText(scheme.toText(p.fromVersion)) && '_' !in scheme.toText(p.toVersion)
    requires IsDottedVersionText(scheme.toText(q.fromVersion)) && '_' !in scheme.toText(q.toVersion)
    requires PatchVersion(scheme, p) == PatchVersion(scheme, q)
    ensures scheme.toText(p.fromVersion) == scheme.toText(q.fromVersion)
    ensures scheme.toText(p.toVersion) == scheme.toText(q.toVersion)
  {
    VersionPairNameRoundTrip(scheme.toText(p.fromVersion), scheme.toText(p.toVersion));
    VersionPairNameRoundTrip(scheme.toText(q.fromVersion), scheme.toText(q.toVersion));
  }

  /** The brief name splits back at its first '_' when FromVersion's text has none. */
  lemma {:induction false} PatchVersionBriefRoundTrip<V>(scheme: VersionScheme<V>, patch: IncrementalPatch<V>)
    requires '_' !in scheme.toText(patch.fromVersion)
    ensures SplitAtFirst(PatchVersionBrief(scheme, patch), "_")
         == Some((scheme.toText(patch.fromVersion), scheme.toText(patch.toVersion)))
  {
    SplitBeforeFirst(scheme.toText(patch.fromVersion), scheme.toText(patch.toVersion));
  }

  lemma {:induction false} SplitBeforeFirst(a: string, b: string)
    requires '_' !in a
    ensures SplitAtFirst(a + "_" + b, "_") == Some((a, b))
    decreases |a|
  {
    var s := a + "_" + b;
    if a == [] {
      assert s[..1] == "_" && s[1..] == b;
    } else {
      assert a[0] in a && s[0] == a[0] && s[..1] == [a[0]];
      assert s[1..] == a[1..] + "_" + b;
      assert forall c :: c in a[1..] ==> c in a;
      SplitBeforeFirst(a[1..], b);
      assert [a[0]] + a[1..] == a;
    }
  }
}
