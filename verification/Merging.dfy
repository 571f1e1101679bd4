/** The merge tool: a list of catalogues is merged into that of the system. */
module Merging {
  import opened Wrappers
  import opened Xexps
  import opened Catalogues
  import opened CatalogueFiles
  import Tokens

  /** What identifies a catalogue: the words of its fields. */
  datatype MergeKey = MergeKey(uri: seq<string>, dist: seq<string>, components: seq<string>)

  function KeyFor(x: Xexp): MergeKey {
    MergeKey(Tokens.Key(ArefText(x, "uri")), Tokens.Key(ArefText(x, "dist")), Tokens.Key(ArefText(x, "components")))
  }

  /** Equality is that of keys, hence an equivalence. */
  method CataloguesAreEqual(cat1: Xexp, cat2: Xexp) returns (r: bool)
    ensures r <==> KeyFor(cat1) == KeyFor(cat2)
    ensures r <==> && Tokens.Key(ArefText(cat1, "uri")) == Tokens.Key(ArefText(cat2, "uri"))
                   && Tokens.Key(ArefText(cat1, "dist")) == Tokens.Key(ArefText(cat2, "dist"))
                   && Tokens.Key(ArefText(cat1, "components")) == Tokens.Key(ArefText(cat2, "components"))
  {
    r := Tokens.TokensEqual(ArefText(cat1, "uri"), ArefText(cat2, "uri"));
    if r {
      r := Tokens.TokensEqual(ArefText(cat1, "dist"), ArefText(cat2, "dist"));
    }
    if r {
      r := Tokens.TokensEqual(ArefText(cat1, "components"), ArefText(cat2, "components"));
    }
  }

  /** Whether a search for a catalogue with the key stops at `x`. */
  predicate Matches(x: Xexp, key: MergeKey) {
    x.tag == "catalogue" && KeyFor(x) == key
  }

  function FindCatalogue(cats: seq<Xexp>, key: MergeKey): (n: nat)
    ensures n <= |cats|
    ensures n < |cats| ==> Matches(cats[n], key)
    ensures forall i :: 0 <= i < n ==> !Matches(cats[i], key)
  {
    if cats == [] || Matches(cats[0], key) then 0 else 1 + FindCatalogue(cats[1..], key)
  }

  function DeleteFirst(cats: seq<Xexp>, key: MergeKey): seq<Xexp> {
    var n := FindCatalogue(cats, key);
    if n < |cats| then cats[..n] + cats[n + 1..] else cats
  }

  function MergeOne(sys: seq<Xexp>, m: Xexp, distribution: string): seq<Xexp> {
    if IsValid(m, distribution) then DeleteFirst(sys, KeyFor(m)) + [m] else sys
  }

  function Merge(sys: seq<Xexp>, merge: seq<Xexp>, distribution: string): seq<Xexp>
    decreases |merge|
  {
    if merge == [] then sys else Merge(MergeOne(sys, merge[0], distribution), merge[1..], distribution)
  }

  // ---- In place

  method FindInPlace(catalogues: CatalogueList, cat: Xexp) returns (n: nat)
    ensures n == FindCatalogue(catalogues.items, KeyFor(cat))
  {
    n := 0;
    while n < |catalogues.items|
      invariant n <= |catalogues.items|
      invariant forall i :: 0 <= i < n ==> !Matches(catalogues.items[i], KeyFor(cat))
    {
      var c := catalogues.items[n];
      if c.tag == "catalogue" {
        var equal := CataloguesAreEqual(c, cat);
        if equal {
          return;
        }
      }
      n := n + 1;
    }
  }

  method MergeCatalogues(sysCats: CatalogueList, mergeCats: CatalogueList, distribution: string)
    requires sysCats != mergeCats
    modifies sysCats, mergeCats
    ensures sysCats.items == Merge(old(sysCats.items), old(mergeCats.items), distribution)
    ensures mergeCats.items == []
  {
    hide KeyFor, IsValid, FindCatalogue, Matches;
    while true
      invariant Merge(sysCats.items, mergeCats.items, distribution)
                == Merge(old(sysCats.items), old(mergeCats.items), distribution)
      decreases |mergeCats.items|
    {
      ghost var before := sysCats.items;
      var m := mergeCats.Pop();
      if m.None? {
        return;
      }
      if !IsValid(m.value, distribution) {
        continue;
      }
      var n := FindInPlace(sysCats, m.value);
      if n < |sysCats.items| {
        sysCats.Del(n);
      }
      sysCats.Append1(m.value);
      assert sysCats.items == MergeOne(before, m.value, distribution);
    }
  }

  // ---- What merging means

  /** No two catalogues have the same key. */
  predicate DistinctKeys(cats: seq<Xexp>) {
    forall i, j :: 0 <= i < j < |cats| && cats[i].tag == "catalogue" && cats[j].tag == "catalogue"
      ==> KeyFor(cats[i]) != KeyFor(cats[j])
  }

  /** No valid entry to come replaces `x`. */
  predicate Survives(x: Xexp, later: seq<Xexp>, distribution: string) {
    forall m :: m in later && IsValid(m, distribution) ==> !Matches(x, KeyFor(m))
  }

  /** Those of `cats` that are not replaced, in their order. */
  function Surviving(cats: seq<Xexp>, later: seq<Xexp>, distribution: string): seq<Xexp> {
    if cats == [] then []
    else if Survives(cats[0], later, distribution) then [cats[0]] + Surviving(cats[1..], later, distribution)
    else Surviving(cats[1..], later, distribution)
  }

  /** The valid entries that are not replaced by a later one, in their order. */
  function LastOnes(merge: seq<Xexp>, distribution: string): seq<Xexp> {
    if merge == [] then []
    else if IsValid(merge[0], distribution) && Survives(merge[0], merge[1..], distribution)
    then [merge[0]] + LastOnes(merge[1..], distribution)
    else LastOnes(merge[1..], distribution)
  }

  lemma {:induction false} SurvivingConcat(a: seq<Xexp>, b: seq<Xexp>, later: seq<Xexp>, distribution: string)
    ensures Surviving(a + b, later, distribution) == Surviving(a, later, distribution) + Surviving(b, later, distribution)
    decreases |a|
  {
    hide Survives;
    if a == [] {
      assert a + b == b;
    } else {
      var both := a + b;
      assert both[0] == a[0] && both[1..] == a[1..] + b;
      SurvivingConcat(a[1..], b, later, distribution);
      assert [a[0]] + (Surviving(a[1..], later, distribution) + Surviving(b, later, distribution))
          == [a[0]] + Surviving(a[1..], later, distribution) + Surviving(b, later, distribution);
    }
  }

  /** A valid entry that none of `cats` matches replaces nothing there. */
  lemma {:induction false} SurvivingSame(cats: seq<Xexp>, m: Xexp, rest: seq<Xexp>, distribution: string)
    requires forall x :: x in cats && IsValid(m, distribution) ==> !Matches(x, KeyFor(m))
    ensures Surviving(cats, [m] + rest, distribution) == Surviving(cats, rest, distribution)
  {
    hide KeyFor, IsValid;
    if cats != [] {
      assert forall y :: y in [m] + rest <==> y == m || y in rest;
      assert Survives(cats[0], [m] + rest, distribution) == Survives(cats[0], rest, distribution);
      SurvivingSame(cats[1..], m, rest, distribution);
    }
  }

  lemma Replaced(x: Xexp, m: Xexp, rest: seq<Xexp>, distribution: string)
    requires IsValid(m, distribution) && Matches(x, KeyFor(m))
    ensures Surviving([x], [m] + rest, distribution) == []
  {
    hide KeyFor, IsValid;
    assert m in [m] + rest;
    assert !Survives(x, [m] + rest, distribution);
  }

  /** Deleting the first match deletes all there are. */
  lemma DeleteLeavesSurvivors(sys: seq<Xexp>, m: Xexp, rest: seq<Xexp>, distribution: string)
    requires DistinctKeys(sys) && IsValid(m, distribution)
    ensures Surviving(DeleteFirst(sys, KeyFor(m)), rest, distribution) == Surviving(sys, [m] + rest, distribution)
  {
    hide KeyFor, IsValid, Survives, Surviving;
    var n := FindCatalogue(sys, KeyFor(m));
    if n < |sys| {
      var before, x, after := sys[..n], sys[n], sys[n + 1..];
      assert forall y :: y in after ==> !Matches(y, KeyFor(m));
      hide DistinctKeys, FindCatalogue, Matches;
      assert sys == before + ([x] + after);
      SurvivingConcat(before, [x] + after, [m] + rest, distribution);
      SurvivingConcat([x], after, [m] + rest, distribution);
      SurvivingConcat(before, after, rest, distribution);
      SurvivingSame(before, m, rest, distribution);
      SurvivingSame(after, m, rest, distribution);
      Replaced(x, m, rest, distribution);
      assert [] + Surviving(after, rest, distribution) == Surviving(after, rest, distribution);
    } else {
      SurvivingSame(sys, m, rest, distribution);
    }
  }

  lemma MergeOneKeepsDistinct(sys: seq<Xexp>, m: Xexp, distribution: string)
    requires DistinctKeys(sys)
    ensures DistinctKeys(MergeOne(sys, m, distribution))
  {
    hide KeyFor, IsValid;
    if IsValid(m, distribution) {
      var n := FindCatalogue(sys, KeyFor(m));
      var left := DeleteFirst(sys, KeyFor(m));
      assert n < |sys| ==> forall i :: 0 <= i < |left| ==> left[i] == if i < n then sys[i] else sys[i + 1];
      assert DistinctKeys(left);
      assert forall i :: 0 <= i < |left| ==> !Matches(left[i], KeyFor(m));
    }
  }

  /** Merging is a keyed override: what no valid entry replaces stays in its order, and the
      valid entries follow, the last one for each key. */
  lemma {:induction false} MergeIsOverride(sys: seq<Xexp>, merge: seq<Xexp>, distribution: string)
    requires DistinctKeys(sys)
    ensures Merge(sys, merge, distribution) == Surviving(sys, merge, distribution) + LastOnes(merge, distribution)
    ensures DistinctKeys(Merge(sys, merge, distribution))
    decreases |merge|
  {
    hide KeyFor, IsValid, DistinctKeys, DeleteFirst, Survives;
    if merge == [] {
      AllSurvive(sys, distribution);
    } else {
      var m, rest := merge[0], merge[1..];
      MergeOneKeepsDistinct(sys, m, distribution);
      MergeIsOverride(MergeOne(sys, m, distribution), rest, distribution);
      assert merge == [m] + rest;
      OverrideStep(sys, m, rest, distribution);
    }
  }

  lemma OverrideStep(sys: seq<Xexp>, m: Xexp, rest: seq<Xexp>, distribution: string)
    requires DistinctKeys(sys)
    ensures Surviving(MergeOne(sys, m, distribution), rest, distribution) + LastOnes(rest, distribution)
            == Surviving(sys, [m] + rest, distribution) + LastOnes([m] + rest, distribution)
  {
    hide KeyFor, IsValid, DistinctKeys, DeleteFirst, Survives;
    assert ([m] + rest)[1..] == rest;
    if IsValid(m, distribution) {
      DeleteLeavesSurvivors(sys, m, rest, distribution);
      var left := DeleteFirst(sys, KeyFor(m));
      SurvivingConcat(left, [m], rest, distribution);
      assert [m][1..] == [];
      assert Surviving(left, rest, distribution) + Surviving([m], rest, distribution) + LastOnes(rest, distribution)
          == Surviving(left, rest, distribution) + (Surviving([m], rest, distribution) + LastOnes(rest, distribution));
    } else {
      SurvivingSame(sys, m, rest, distribution);
    }
  }

  lemma {:induction false} AllSurvive(cats: seq<Xexp>, distribution: string)
    ensures Surviving(cats, [], distribution) == cats
  {
    if cats != [] {
      AllSurvive(cats[1..], distribution);
    }
  }

  /** The entry names no distribution or this one. */
  predicate ForDistribution(x: Xexp, distribution: string) {
    ArefText(x, "filter_dist").None? || ArefText(x, "filter_dist") == Some(distribution)
  }

  /** No entry of `later` for the distribution has the key of the catalogue `x`. */
  predicate NotReplaced(x: Xexp, later: seq<Xexp>, distribution: string) {
    x.tag == "catalogue" ==> forall m :: m in later && ForDistribution(m, distribution) ==> KeyFor(m) != KeyFor(x)
  }

  lemma SurvivesSaid(x: Xexp, later: seq<Xexp>, distribution: string)
    ensures Survives(x, later, distribution) <==> NotReplaced(x, later, distribution)
  {
    hide KeyFor, ArefText;
  }

  lemma {:induction false} SurvivingSaid(cats: seq<Xexp>, later: seq<Xexp>, distribution: string, x: Xexp)
    ensures x in Surviving(cats, later, distribution) <==> x in cats && NotReplaced(x, later, distribution)
  {
    hide Survives, NotReplaced;
    if cats != [] {
      SurvivesSaid(cats[0], later, distribution);
      SurvivingSaid(cats[1..], later, distribution, x);
    }
  }

  /** The last entry for the distribution with its key. */
  predicate LastFor(merge: seq<Xexp>, i: nat, distribution: string)
    requires i < |merge|
  {
    ForDistribution(merge[i], distribution) && NotReplaced(merge[i], merge[i + 1..], distribution)
  }

  lemma {:induction false} LastOnesSaid(merge: seq<Xexp>, distribution: string, x: Xexp)
    ensures x in LastOnes(merge, distribution) <==>
            exists i :: 0 <= i < |merge| && merge[i] == x && LastFor(merge, i, distribution)
  {
    hide Survives, NotReplaced, ArefText;
    if merge != [] {
      var rest := merge[1..];
      SurvivesSaid(merge[0], rest, distribution);
      LastOnesSaid(rest, distribution, x);
      assert forall i :: 0 <= i < |rest| ==> rest[i] == merge[i + 1] && rest[i + 1..] == merge[i + 2..];
      if i :| 0 <= i < |rest| && rest[i] == x && LastFor(rest, i, distribution) {
        assert LastFor(merge, i + 1, distribution);
      }
      if i :| 0 <= i < |merge| && merge[i] == x && LastFor(merge, i, distribution) {
        assert i > 0 ==> LastFor(rest, i - 1, distribution);
      }
    }
  }

  /** Which catalogues there are after merging, in terms of their filters and fields. */
  lemma MergeByFilter(sys: seq<Xexp>, merge: seq<Xexp>, distribution: string, x: Xexp)
    requires DistinctKeys(sys)
    ensures x in Merge(sys, merge, distribution) <==>
            || (x in sys && NotReplaced(x, merge, distribution))
            || exists i :: 0 <= i < |merge| && merge[i] == x && LastFor(merge, i, distribution)
  {
    hide DistinctKeys, NotReplaced, LastFor;
    MergeIsOverride(sys, merge, distribution);
    SurvivingSaid(sys, merge, distribution, x);
    LastOnesSaid(merge, distribution, x);
  }

  // ---- As a map

  /** The catalogue with the key. */
  function Lookup(cats: seq<Xexp>, key: MergeKey): Option<Xexp> {
    var n := FindCatalogue(cats, key);
    if n < |cats| then Some(cats[n]) else None
  }

  /** The lookup after one entry. */
  function Update(was: Option<Xexp>, m: Xexp, key: MergeKey, distribution: string): Option<Xexp> {
    if !IsValid(m, distribution) || KeyFor(m) != key then was
    else if m.tag == "catalogue" then Some(m)
    else None
  }

  /** The lookup after all entries, one after the other. */
  function Updates(was: Option<Xexp>, merge: seq<Xexp>, key: MergeKey, distribution: string): Option<Xexp>
    decreases |merge|
  {
    if merge == [] then was else Updates(Update(was, merge[0], key, distribution), merge[1..], key, distribution)
  }

  lemma LookupUnique(cats: seq<Xexp>, key: MergeKey, i: nat)
    requires DistinctKeys(cats) && i < |cats| && Matches(cats[i], key)
    ensures Lookup(cats, key) == Some(cats[i])
  {
    hide KeyFor;
  }

  lemma LookupMergeOne(sys: seq<Xexp>, m: Xexp, key: MergeKey, distribution: string)
    requires DistinctKeys(sys)
    ensures Lookup(MergeOne(sys, m, distribution), key) == Update(Lookup(sys, key), m, key, distribution)
  {
    hide KeyFor, IsValid;
    MergeOneKeepsDistinct(sys, m, distribution);
    if IsValid(m, distribution) {
      var next := MergeOne(sys, m, distribution);
      var n := FindCatalogue(sys, KeyFor(m));
      var left := DeleteFirst(sys, KeyFor(m));
      assert n < |sys| ==> forall i :: 0 <= i < |left| ==> left[i] == if i < n then sys[i] else sys[i + 1];
      assert forall i :: 0 <= i < |left| ==> next[i] == left[i];
      assert next[|left|] == m;
      if KeyFor(m) == key {
        if m.tag == "catalogue" {
          LookupUnique(next, key, |left|);
        } else {
          assert forall i :: 0 <= i < |next| ==> !Matches(next[i], key);
        }
      } else {
        var k := FindCatalogue(sys, key);
        if k < |sys| {
          assert k != n;
          var at := if k < n then k else k - 1;
          assert n < |sys| ==> left[at] == sys[k];
          LookupUnique(next, key, if n < |sys| then at else k);
        } else {
          assert forall i :: 0 <= i < |next| ==> !Matches(next[i], key);
        }
      }
    }
  }

  /** Seen as a map from keys, merging updates it by the valid entries, the last one
      winning. */
  lemma {:induction false} MergeUpdatesMap(sys: seq<Xexp>, merge: seq<Xexp>, key: MergeKey, distribution: string)
    requires DistinctKeys(sys)
    ensures Lookup(Merge(sys, merge, distribution), key) == Updates(Lookup(sys, key), merge, key, distribution)
    decreases |merge|
  {
    hide KeyFor, IsValid, DistinctKeys, DeleteFirst, Lookup, Update;
    if merge != [] {
      LookupMergeOne(sys, merge[0], key, distribution);
      MergeOneKeepsDistinct(sys, merge[0], distribution);
      MergeUpdatesMap(MergeOne(sys, merge[0], distribution), merge[1..], key, distribution);
    }
  }
}
