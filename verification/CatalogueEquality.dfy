/** When two catalogues count as the same in the frontend's list. */
module CatalogueEquality {
  import opened Characters
  import opened Collections
  import opened Wrappers
  import opened Xexps
  import opened Catalogues
  import Components
  import Tokens

  function WithoutSlashes(uri: string): (r: string)
    ensures r <= uri && (r != "" ==> r[|r| - 1] != '/')
    ensures forall i :: |r| <= i < |uri| ==> uri[i] == '/'
  {
    if uri != "" && uri[|uri| - 1] == '/' then WithoutSlashes(uri[..|uri| - 1]) else uri
  }

  function UriWords(uri: Option<string>): seq<string> {
    Tokens.Key(if uri.Some? then Some(WithoutSlashes(uri.value)) else None)
  }

  /** A blank distribution stands for the default one. */
  function ActualDist(dist: Option<string>, distribution: string): string {
    if dist.None? || Components.Strip(dist.value) == "" then distribution else Components.Strip(dist.value)
  }

  function DistWords(dist: Option<string>, distribution: string): seq<string> {
    Tokens.Key(Some(ActualDist(dist, distribution)))
  }

  predicate IsPackage(x: Xexp) {
    ArefText(x, "file").Some? && ArefText(x, "id").Some?
  }

  function Listed(x: Xexp): Option<seq<string>> {
    Components.ComponentsArray(ArefText(x, "components"))
  }

  ghost predicate SameListed(a: Option<seq<string>>, b: Option<seq<string>>) {
    if a.Some? && b.Some? then Components.LongerInShorter(Components.Stripped(a.value), Components.Stripped(b.value))
    else a.None? && b.None?
  }

  /** The same address and distribution. */
  predicate SamePlace(a: Xexp, b: Xexp, distribution: string) {
    && UriWords(ArefText(a, "uri")) == UriWords(ArefText(b, "uri"))
    && DistWords(ArefText(a, "dist"), distribution) == DistWords(ArefText(b, "dist"), distribution)
  }

  ghost predicate Same(a: Xexp, b: Xexp, distribution: string) {
    if IsPackage(a) && IsPackage(b) then
      && Tokens.Key(ArefText(a, "file")) == Tokens.Key(ArefText(b, "file"))
      && Tokens.Key(ArefText(a, "id")) == Tokens.Key(ArefText(b, "id"))
    else
      SamePlace(a, b, distribution) && SameListed(Listed(a), Listed(b))
  }

  method RemoveTrailingSlashes(uri: Option<string>) returns (r: Option<string>)
    ensures r == if uri.Some? then Some(WithoutSlashes(uri.value)) else None
  {
    r := uri;
    if uri.Some? {
      var n := |uri.value|;
      assert uri.value[..n] == uri.value;
      while n > 0 && uri.value[n - 1] == '/'
        invariant n <= |uri.value| && WithoutSlashes(uri.value[..n]) == WithoutSlashes(uri.value)
      {
        assert uri.value[..n][..n - 1] == uri.value[..n - 1];
        n := n - 1;
      }
      r := Some(uri.value[..n]);
    }
  }

  method CatalogueEqual(cat1: Xexp, cat2: Xexp, distribution: string) returns (result: bool)
    ensures result <==> Same(cat1, cat2, distribution)
  {
    hide WithoutSlashes, ActualDist, Components.LongerInShorter;
    if IsPackage(cat1) && IsPackage(cat2) {
      result := Tokens.TokensEqual(ArefText(cat1, "file"), ArefText(cat2, "file"));
      if result {
        result := Tokens.TokensEqual(ArefText(cat1, "id"), ArefText(cat2, "id"));
      }
    } else {
      var uri1 := RemoveTrailingSlashes(ArefText(cat1, "uri"));
      var uri2 := RemoveTrailingSlashes(ArefText(cat2, "uri"));
      result := Tokens.TokensEqual(uri1, uri2);
      if result {
        result := Tokens.TokensEqual(Some(ActualDist(ArefText(cat1, "dist"), distribution)),
                                     Some(ActualDist(ArefText(cat2, "dist"), distribution)));
      }
      if result {
        result := Components.ComponentsEqual(ArefText(cat1, "components"), ArefText(cat2, "components"));
      }
    }
  }

  // ---- How far this is an equivalence

  /** A distribution counts by its words; a missing one, or one of blanks, stands for the
      default one. */
  lemma DistributionsByWords(dist: Option<string>, distribution: string)
    ensures DistWords(dist, distribution) ==
            if dist.None? || Components.Strip(dist.value) == "" then Tokens.Words(distribution)
            else Tokens.Words(dist.value)
  {
    if dist.Some? {
      Components.StripWords(dist.value);
    }
  }

  /** No component is named twice. */
  ghost predicate NoDuplicates(x: Xexp) {
    Listed(x).Some? ==> Distinct(Components.Stripped(Listed(x).value))
  }

  /** What identifies a catalogue among those of the user. */
  datatype UserKey = UserKey(uri: seq<string>, dist: seq<string>, components: Option<set<string>>)

  ghost function UserKeyOf(x: Xexp, distribution: string): UserKey {
    UserKey(UriWords(ArefText(x, "uri")), DistWords(ArefText(x, "dist"), distribution),
            if Listed(x).Some? then Some(Elements(Components.Stripped(Listed(x).value))) else None)
  }

  /** The same address and distribution, and the longer list of components names a proper
      part of what the shorter one names. */
  ghost predicate DifferenceMissed(a: Xexp, b: Xexp, distribution: string) {
    && SamePlace(a, b, distribution) && Listed(a).Some? && Listed(b).Some?
    && Components.LongerIsPart(Components.Stripped(Listed(a).value), Components.Stripped(Listed(b).value))
  }

  ghost predicate Alike(a: Xexp, b: Xexp, distribution: string) {
    UserKeyOf(a, distribution) == UserKeyOf(b, distribution) || DifferenceMissed(a, b, distribution)
  }

  /** Two catalogues that do not both come from packages are the same exactly if they have
      the same address, distribution and set of components, up to white space, or a
      difference of the sets is missed, which takes a component named twice. */
  lemma UserCataloguesByKey(a: Xexp, b: Xexp, distribution: string)
    requires !(IsPackage(a) && IsPackage(b))
    ensures Same(a, b, distribution) <==> Alike(a, b, distribution)
    ensures DifferenceMissed(a, b, distribution) ==> !(NoDuplicates(a) && NoDuplicates(b))
  {
    hide UriWords, DistWords, Listed, IsPackage;
    if Listed(a).Some? && Listed(b).Some? {
      Components.WhenDifferencesAreMissed(Components.Stripped(Listed(a).value), Components.Stripped(Listed(b).value));
    }
  }

  /** Any catalogue is the same as itself.  The order matters exactly if they do not both
      come from packages, agree in address and distribution, and have equally long lists of
      components of which one names a proper part of what the other names. */
  lemma SameIsSymmetric(a: Xexp, b: Xexp, distribution: string)
    ensures Same(a, a, distribution)
    ensures Same(a, b, distribution) != Same(b, a, distribution) <==>
            && !(IsPackage(a) && IsPackage(b)) && SamePlace(a, b, distribution) && Listed(a).Some? && Listed(b).Some?
            && |Listed(a).value| == |Listed(b).value|
            && var p, q := Elements(Components.Stripped(Listed(a).value)), Elements(Components.Stripped(Listed(b).value));
               p < q || q < p
  {
    hide UriWords, DistWords, Listed, IsPackage, Components.LongerInShorter;
    if Listed(a).Some? {
      SelfIncluded(Components.Stripped(Listed(a).value));
      if Listed(b).Some? {
        Components.WhenOrderMatters(Components.Stripped(Listed(a).value), Components.Stripped(Listed(b).value));
      }
    }
  }

  lemma SelfIncluded(cs: seq<string>)
    ensures Components.LongerInShorter(cs, cs)
  {
  }

  /** What identifies a catalogue among those of packages. */
  function PackageKeyOf(x: Xexp): (seq<string>, seq<string>) {
    (Tokens.Key(ArefText(x, "file")), Tokens.Key(ArefText(x, "id")))
  }

  /** `a` and `c` come from packages and differ, and `b` of the user is like both. */
  ghost predicate UserBetweenPackages(a: Xexp, b: Xexp, c: Xexp, distribution: string) {
    && IsPackage(a) && !IsPackage(b) && IsPackage(c) && PackageKeyOf(a) != PackageKeyOf(c)
    && Alike(a, b, distribution) && Alike(b, c, distribution)
  }

  /** `a` and `b` come from packages and have the same key, and `c` of the user is like `b`
      but not like `a`; or the other way round. */
  ghost predicate UserBesidePackages(a: Xexp, b: Xexp, c: Xexp, distribution: string) {
    || (&& IsPackage(a) && IsPackage(b) && !IsPackage(c) && PackageKeyOf(a) == PackageKeyOf(b)
        && Alike(b, c, distribution) && !Alike(a, c, distribution))
    || (&& !IsPackage(a) && IsPackage(b) && IsPackage(c) && PackageKeyOf(b) == PackageKeyOf(c)
        && Alike(a, b, distribution) && !Alike(a, c, distribution))
  }

  /** Of catalogues that have the same address and distribution, no two of them from
      packages, the one in the middle has a list of components that misleads. */
  ghost predicate MisledByDuplicates(a: Xexp, b: Xexp, c: Xexp, distribution: string) {
    && AtMostOnePackage(a, b, c) && SamePlace(a, b, distribution) && SamePlace(b, c, distribution)
    && Listed(a).Some? && Listed(b).Some? && Listed(c).Some?
    && Components.MiddleMisleads(Components.Stripped(Listed(a).value), Components.Stripped(Listed(b).value),
                                 Components.Stripped(Listed(c).value))
  }

  predicate AtMostOnePackage(a: Xexp, b: Xexp, c: Xexp) {
    !(IsPackage(a) && IsPackage(b)) && !(IsPackage(b) && IsPackage(c)) && !(IsPackage(a) && IsPackage(c))
  }

  /** Transitivity fails exactly when a catalogue of the user is like two package catalogues
      of different keys, or like one of two of the same key, or when the components of the
      catalogue in the middle mislead. */
  lemma WhenTransitivityFails(a: Xexp, b: Xexp, c: Xexp, distribution: string)
    ensures Same(a, b, distribution) && Same(b, c, distribution) && !Same(a, c, distribution) <==>
            || UserBetweenPackages(a, b, c, distribution)
            || UserBesidePackages(a, b, c, distribution)
            || MisledByDuplicates(a, b, c, distribution)
  {
    if AtMostOnePackage(a, b, c) {
      WhenListsMislead(a, b, c, distribution);
    } else {
      hide IsPackage, Alike, MisledByDuplicates;
      PackagesByKey(a, b, distribution);
      PackagesByKey(b, c, distribution);
      PackagesByKey(a, c, distribution);
      hide Same, PackageKeyOf;
      if !(IsPackage(a) && IsPackage(b)) {
        UserCataloguesByKey(a, b, distribution);
      }
      if !(IsPackage(b) && IsPackage(c)) {
        UserCataloguesByKey(b, c, distribution);
      }
      if !(IsPackage(a) && IsPackage(c)) {
        UserCataloguesByKey(a, c, distribution);
      }
    }
  }

  lemma WhenListsMislead(a: Xexp, b: Xexp, c: Xexp, distribution: string)
    requires AtMostOnePackage(a, b, c)
    ensures Same(a, b, distribution) && Same(b, c, distribution) && !Same(a, c, distribution) <==>
            MisledByDuplicates(a, b, c, distribution)
  {
    hide UriWords, DistWords, Listed, IsPackage, Components.LongerInShorter, Components.MiddleMisleads;
    if Listed(a).Some? && Listed(b).Some? && Listed(c).Some? {
      Components.WhenStepsDoNotCompose(Components.Stripped(Listed(a).value), Components.Stripped(Listed(b).value),
                                       Components.Stripped(Listed(c).value));
    }
  }

  /** So it is transitive when no two catalogues come from packages and the last two name no
      component twice. */
  lemma SameIsTransitive(a: Xexp, b: Xexp, c: Xexp, distribution: string)
    requires AtMostOnePackage(a, b, c) && NoDuplicates(b) && NoDuplicates(c)
    ensures Same(a, b, distribution) && Same(b, c, distribution) ==> Same(a, c, distribution)
  {
    hide Same, IsPackage, AtMostOnePackage, SamePlace, Listed, Components.LongerInShorter, Components.MiddleMisleads;
    WhenListsMislead(a, b, c, distribution);
    if Listed(a).Some? && Listed(b).Some? && Listed(c).Some? {
      Components.WhenStepsDoNotCompose(Components.Stripped(Listed(a).value), Components.Stripped(Listed(b).value),
                                       Components.Stripped(Listed(c).value));
    }
  }

  lemma PackagesByKey(a: Xexp, b: Xexp, distribution: string)
    ensures IsPackage(a) && IsPackage(b) ==> (Same(a, b, distribution) <==> PackageKeyOf(a) == PackageKeyOf(b))
  {
  }

  function PackageEntry(file: char): Xexp {
    List("catalogue", [Text("file", [file]), Text("id", "i")])
  }

  lemma PackageEntryReads(file: char)
    requires !IsSpace(file)
    ensures var x := PackageEntry(file);
            IsPackage(x) && Tokens.Key(ArefText(x, "file")) == [[file]] && ArefText(x, "uri").None?
            && ArefText(x, "dist").None? && Listed(x).None?
  {
    var a, b := Text("file", [file]), Text("id", "i");
    FindInTwo(a, b, "file");
    FindInTwo(a, b, "id");
    FindInTwo(a, b, "uri");
    FindInTwo(a, b, "dist");
    FindInTwo(a, b, "components");
    OneWord(file);
  }

  lemma FindInTwo(a: Xexp, b: Xexp, tag: string)
    ensures Find([a, b], tag) == if a.tag == tag then Some(a) else if b.tag == tag then Some(b) else None
  {
    assert [a, b][1..] == [b] && [b][1..] == [];
    assert Find([b], tag) == if b.tag == tag then Some(b) else None;
  }

  /** Such catalogues exist: two package catalogues that are both the same as one of the
      user, but not as each other. */
  lemma PackagesBreakTransitivity()
    ensures exists a, b, c :: Same(a, b, "d") && Same(b, c, "d") && !Same(a, c, "d")
  {
    hide ActualDist, UriWords;
    var user, one, two := List("catalogue", []), PackageEntry('f'), PackageEntry('g');
    PackageEntryReads('f');
    PackageEntryReads('g');
    hide PackageEntry;
    assert !IsPackage(user) && Listed(user).None?;
    assert [['f']][0][0] != [['g']][0][0];
    assert Same(one, user, "d") && Same(user, two, "d") && !Same(one, two, "d");
  }

  function UserEntry(components: string): Xexp {
    List("catalogue", [Text("components", components)])
  }

  lemma UserEntryReads(components: string)
    ensures var x := UserEntry(components);
            && ArefText(x, "file").None? && ArefText(x, "uri").None? && ArefText(x, "dist").None?
            && ArefText(x, "components") == Some(components)
  {
    var a := Text("components", components);
    assert [a][1..] == [];
    assert forall tag :: Find([a], tag) == if a.tag == tag then Some(a) else None;
  }

  /** Among catalogues of the user it takes duplicates. */
  lemma DuplicatesBreakTransitivity()
    ensures var a, b, c := UserEntry("x x x"), UserEntry("x y"), UserEntry("y y y");
            Same(a, b, "d") && Same(b, c, "d") && !Same(a, c, "d")
  {
    hide ActualDist, UriWords, Components.LongerInShorter;
    UserEntryReads("x x x");
    UserEntryReads("x y");
    UserEntryReads("y y y");
    hide UserEntry;
    Components.DuplicatesBreakTransitivity();
  }

  lemma OneWord(c: char)
    requires !IsSpace(c)
    ensures Tokens.Key(Some([c])) == [[c]]
  {
    assert [c][1..] == "" && "" + [c] == [c];
    assert Tokens.Split("", [c]) == [[c]];
  }
}
