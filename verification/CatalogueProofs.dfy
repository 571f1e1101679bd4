/** What writing the user's catalogue file and reading it again keeps. */
module CatalogueProofs {
  import opened Wrappers
  import opened Xexps
  import opened Catalogues

  // ---- Persistence

  lemma {:induction false} AddUserConcat(global: seq<Xexp>, a: seq<Xexp>, b: seq<Xexp>, distribution: string)
    ensures AddUserCatalogues(global, a + b, distribution) ==
            AddUserCatalogues(AddUserCatalogues(global, a, distribution), b, distribution)
    decreases |a|
  {
    if a == [] {
      assert a + b == b;
    } else {
      assert (a + b)[1..] == a[1..] + b;
      AddUserConcat(AddUserCatalogue(global, a[0], distribution), a[1..], b, distribution);
    }
  }

  lemma {:induction false} UsersOwnHaveNoKey(cats: seq<Xexp>, distribution: string)
    ensures forall x :: x in UsersOwn(cats, distribution) ==> KeyOf(x).None?
  {
    if cats != [] {
      UsersOwnHaveNoKey(cats[..|cats| - 1], distribution);
    }
  }

  lemma {:induction false} OverrideKeepsKey(p: Xexp, cats: seq<Xexp>)
    ensures KeyOf(Override(p, cats)) == KeyOf(p)
    ensures KeyOf(p).None? ==> Override(p, cats) == p
  {
    if cats != [] {
      var x := cats[|cats| - 1];
      OverrideKeepsKey(p, cats[..|cats| - 1]);
      FlagKeepsKey(p, ArefBool(x, "disabled"));
    }
  }

  /** A flag set over an override is as if set on the package catalogue. */
  lemma {:induction false} FlagOverOverride(p: Xexp, cats: seq<Xexp>, val: bool)
    ensures AsetBool(Override(p, cats), "disabled", val) == AsetBool(p, "disabled", val)
  {
    if cats != [] {
      var x := cats[|cats| - 1];
      FlagOverOverride(p, cats[..|cats| - 1], val);
      AsetBoolTwice(p, "disabled", ArefBool(x, "disabled"), val);
    }
  }

  lemma OverriddenKeepsKeys(pkgs: seq<Xexp>, cats: seq<Xexp>)
    ensures forall i :: 0 <= i < |pkgs| ==> KeyOf(Overridden(pkgs, cats)[i]) == KeyOf(pkgs[i])
  {
    forall i | 0 <= i < |pkgs|
      ensures KeyOf(Overridden(pkgs, cats)[i]) == KeyOf(pkgs[i])
    {
      OverrideKeepsKey(pkgs[i], cats);
    }
  }

  /** A search depends on the keys alone. */
  lemma {:induction false} FindByKeys(key: Option<CatKey>, pkgs: seq<Xexp>, cats: seq<Xexp>, own: seq<Xexp>)
    requires |cats| == |pkgs| && forall i :: 0 <= i < |pkgs| ==> KeyOf(cats[i]) == KeyOf(pkgs[i])
    requires forall x :: x in own ==> KeyOf(x).None?
    ensures FindPackage(key, cats + own) ==
            if FindPackage(key, pkgs) < |pkgs| then FindPackage(key, pkgs) else |cats + own|
  {
    var all := cats + own;
    assert forall i :: 0 <= i < |pkgs| ==> all[i] == cats[i];
    assert forall i :: |pkgs| <= i < |all| ==> all[i] in own;
    assert forall i :: 0 <= i < |all| ==> KeyOf(all[i]) == if i < |pkgs| then KeyOf(pkgs[i]) else None;
    var n, m := FindPackage(key, all), FindPackage(key, pkgs);
    assert n < |all| ==> KeyOf(all[n]) == key;
    assert m < |pkgs| ==> KeyOf(all[m]) == key;
  }

  /** One more reference flags the catalogue that it finds. */
  lemma OverriddenStep(pkgs: seq<Xexp>, cats: seq<Xexp>)
    requires cats != [] && cats[|cats| - 1].tag == "catalogue" && KeyOf(cats[|cats| - 1]).Some?
    ensures var x, over := cats[|cats| - 1], Overridden(pkgs, cats[..|cats| - 1]);
            var n := FindPackage(KeyOf(x), pkgs);
            Overridden(pkgs, cats) ==
            if n < |pkgs| then over[n := AsetBool(over[n], "disabled", ArefBool(x, "disabled"))] else over
  {
    hide AsetBool, KeyOf, ArefBool, Override, Overridden, FirstWithKey;
    var n := FindPackage(KeyOf(cats[|cats| - 1]), pkgs);
    var flagged := Overridden(pkgs, cats);
    if n < |pkgs| {
      FoundFlagged(pkgs, cats, n);
    }
    forall i | 0 <= i < |pkgs| && i != n
      ensures flagged[i] == Overridden(pkgs, cats[..|cats| - 1])[i]
    {
      OtherKept(pkgs, cats, i);
    }
    ChangedAt(flagged, Overridden(pkgs, cats[..|cats| - 1]), n);
  }

  lemma ChangedAt<T>(a: seq<T>, b: seq<T>, n: nat)
    requires |a| == |b| && n <= |a| && forall i :: 0 <= i < |a| && i != n ==> a[i] == b[i]
    ensures a == if n < |b| then b[n := a[n]] else b
  {
  }

  lemma FoundFlagged(pkgs: seq<Xexp>, cats: seq<Xexp>, n: nat)
    requires cats != [] && cats[|cats| - 1].tag == "catalogue" && KeyOf(cats[|cats| - 1]).Some?
    requires n < |pkgs| && FindPackage(KeyOf(cats[|cats| - 1]), pkgs) == n
    ensures var x, over := cats[|cats| - 1], Overridden(pkgs, cats[..|cats| - 1]);
            Overridden(pkgs, cats)[n] == AsetBool(over[n], "disabled", ArefBool(x, "disabled"))
  {
    hide AsetBool, KeyOf, ArefBool;
    FlagOverOverride(pkgs[n], cats[..|cats| - 1], ArefBool(cats[|cats| - 1], "disabled"));
  }

  lemma OtherKept(pkgs: seq<Xexp>, cats: seq<Xexp>, i: nat)
    requires cats != [] && i < |pkgs| && FindPackage(KeyOf(cats[|cats| - 1]), pkgs) != i
    ensures Overridden(pkgs, cats)[i] == Overridden(pkgs, cats[..|cats| - 1])[i]
  {
    hide AsetBool, KeyOf, ArefBool;
  }

  /** One more reference. */
  lemma PersistFlag(pkgs: seq<Xexp>, cats: seq<Xexp>, own: seq<Xexp>, distribution: string)
    requires cats != [] && forall y :: y in own ==> KeyOf(y).None?
    requires cats[|cats| - 1].tag == "catalogue" && KeyOf(cats[|cats| - 1]).Some?
    ensures AddUserCatalogue(Overridden(pkgs, cats[..|cats| - 1]) + own, Reference(cats[|cats| - 1]), distribution)
            == Overridden(pkgs, cats) + own
  {
    hide AsetBool, Reference, KeyOf, IsValid, ArefBool, Overridden, Override, FirstWithKey;
    var init, x := cats[..|cats| - 1], cats[|cats| - 1];
    var over := Overridden(pkgs, init);
    ReferenceReads(x);
    OverriddenKeepsKeys(pkgs, init);
    FindByKeys(KeyOf(x), pkgs, over, own);
    OverriddenStep(pkgs, cats);
    var all := over + own;
    var n := FindPackage(KeyOf(x), pkgs);
    if n < |pkgs| {
      var flagged := AsetBool(over[n], "disabled", ArefBool(x, "disabled"));
      assert all[n] == over[n] && all[n := flagged] == over[n := flagged] + own;
    }
  }

  /** One more entry. */
  lemma PersistStep(pkgs: seq<Xexp>, cats: seq<Xexp>, distribution: string)
    requires cats != []
    ensures AddUserCatalogues(Overridden(pkgs, cats[..|cats| - 1]) + UsersOwn(cats[..|cats| - 1], distribution),
                              WriteCatalogue(cats[|cats| - 1]), distribution)
            == Overridden(pkgs, cats) + UsersOwn(cats, distribution)
  {
    hide AsetBool, Reference, KeyOf, IsValid, ArefBool;
    var init, x := cats[..|cats| - 1], cats[|cats| - 1];
    var over, own := Overridden(pkgs, init), UsersOwn(init, distribution);
    if x.tag == "catalogue" && KeyOf(x).Some? {
      UsersOwnHaveNoKey(init, distribution);
      PersistFlag(pkgs, cats, own, distribution);
      assert own + [] == own;
    } else {
      assert Overridden(pkgs, cats) == over;
      assert over + (own + [x]) == over + own + [x];
      assert own + [] == own;
      var n := FindPackage(KeyOf(x), over + own);
    }
  }

  /** What is written is read back: the package catalogues in order, each with the flag of
      the last entry that refers to it, and then the valid catalogues of the user. */
  lemma {:induction false} Persistence(pkgs: seq<Xexp>, cats: seq<Xexp>, distribution: string)
    ensures AddUserCatalogues(pkgs, WriteUserCatalogues(cats), distribution)
            == Overridden(pkgs, cats) + UsersOwn(cats, distribution)
  {
    if cats == [] {
      assert Overridden(pkgs, []) == pkgs;
    } else {
      var init := cats[..|cats| - 1];
      Persistence(pkgs, init, distribution);
      AddUserConcat(pkgs, WriteUserCatalogues(init), WriteCatalogue(cats[|cats| - 1]), distribution);
      PersistStep(pkgs, cats, distribution);
    }
  }

  // ---- Reading, writing and reading again

  /** The same but for the place and the form of the flag. */
  predicate SameCatalogue(a: Xexp, b: Xexp) {
    && Adel(a, "disabled") == Adel(b, "disabled")
    && ArefBool(a, "disabled") == ArefBool(b, "disabled")
  }

  predicate SameCatalogues(a: seq<Xexp>, b: seq<Xexp>) {
    |a| == |b| && forall i :: 0 <= i < |a| ==> SameCatalogue(a[i], b[i])
  }

  /** Each package catalogue can be referred to. */
  predicate Keyed(pkgs: seq<Xexp>) {
    forall i :: 0 <= i < |pkgs| ==> KeyOf(pkgs[i]).Some?
  }

  predicate DistinctKeys(pkgs: seq<Xexp>) {
    forall i, j :: 0 <= i < j < |pkgs| ==> KeyOf(pkgs[i]) != KeyOf(pkgs[j])
  }

  /** What reading yields: the package catalogues, but for the flags of those that are the
      first with their key, and then valid catalogues that refer to none. */
  predicate Overlay(pkgs: seq<Xexp>, cats: seq<Xexp>, distribution: string) {
    && |pkgs| <= |cats|
    && (forall i :: 0 <= i < |pkgs| ==>
          KeyOf(cats[i]) == KeyOf(pkgs[i]) && Adel(cats[i], "disabled") == Adel(pkgs[i], "disabled"))
    && (forall i :: 0 <= i < |pkgs| && !FirstWithKey(pkgs, i) ==> cats[i] == pkgs[i])
    && (forall i :: |pkgs| <= i < |cats| ==> KeyOf(cats[i]).None? && IsValid(cats[i], distribution))
  }

  lemma AdelAfterFlag(x: Xexp, val: bool)
    ensures Adel(AsetBool(x, "disabled", val), "disabled") == Adel(x, "disabled")
  {
    AsetBoolTwice(x, "disabled", val, false);
  }

  lemma {:induction false} ReadIsOverlay(pkgs: seq<Xexp>, global: seq<Xexp>, user: seq<Xexp>, distribution: string)
    requires Overlay(pkgs, global, distribution)
    ensures Overlay(pkgs, AddUserCatalogues(global, user, distribution), distribution)
    decreases |user|
  {
    hide Overlay;
    if user != [] {
      StepIsOverlay(pkgs, global, user[0], distribution);
      ReadIsOverlay(pkgs, AddUserCatalogue(global, user[0], distribution), user[1..], distribution);
    }
  }

  lemma FoundIsFirst(pkgs: seq<Xexp>, key: Option<CatKey>)
    ensures FindPackage(key, pkgs) < |pkgs| ==> FirstWithKey(pkgs, FindPackage(key, pkgs))
  {
  }

  lemma StepIsOverlay(pkgs: seq<Xexp>, global: seq<Xexp>, m: Xexp, distribution: string)
    requires Overlay(pkgs, global, distribution)
    ensures Overlay(pkgs, AddUserCatalogue(global, m, distribution), distribution)
  {
    hide AsetBool, KeyOf, IsValid, ArefBool, Adel, FirstWithKey, FindPackage;
    FoundIsFirst(pkgs, KeyOf(m));
    var n := FindPackage(KeyOf(m), global);
    FoundInOverlay(pkgs, global, KeyOf(m), distribution);
    if n < |global| {
      FlagKeepsKey(global[n], ArefBool(m, "disabled"));
      AdelAfterFlag(global[n], ArefBool(m, "disabled"));
    }
  }

  lemma FoundInOverlay(pkgs: seq<Xexp>, global: seq<Xexp>, key: Option<CatKey>, distribution: string)
    requires Overlay(pkgs, global, distribution)
    ensures FindPackage(key, global) == if FindPackage(key, pkgs) < |pkgs| then FindPackage(key, pkgs) else |global|
  {
    hide AsetBool, KeyOf, IsValid, ArefBool, Adel, FirstWithKey, FindPackage;
    var own := global[|pkgs|..];
    assert global == global[..|pkgs|] + own;
    FindByKeys(key, pkgs, global[..|pkgs|], own);
  }

  /** The last entry that refers to the key, which is written and read last. */
  function LastReference(cats: seq<Xexp>, key: Option<CatKey>): (n: nat)
    ensures n <= |cats|
    ensures n < |cats| ==> cats[n].tag == "catalogue" && KeyOf(cats[n]) == key
    ensures forall i :: 0 <= i < |cats| && (n < i || n == |cats|) ==> !(cats[i].tag == "catalogue" && KeyOf(cats[i]) == key)
  {
    if cats == [] then 0
    else
      var m := |cats| - 1;
      if cats[m].tag == "catalogue" && KeyOf(cats[m]) == key then m
      else
        var n := LastReference(cats[..m], key);
        if n < m then n else |cats|
  }

  /** The last entry that refers to `p` decides. */
  lemma {:induction false} OverrideByLast(p: Xexp, cats: seq<Xexp>)
    requires KeyOf(p).Some?
    ensures var n := LastReference(cats, KeyOf(p));
            Override(p, cats) == if n < |cats| then AsetBool(p, "disabled", ArefBool(cats[n], "disabled")) else p
  {
    hide AsetBool, ArefBool, KeyOf;
    if cats != [] {
      OverrideByLast(p, cats[..|cats| - 1]);
    }
  }

  lemma {:induction false} UsersOwnConcat(a: seq<Xexp>, b: seq<Xexp>, distribution: string)
    ensures UsersOwn(a + b, distribution) == UsersOwn(a, distribution) + UsersOwn(b, distribution)
    decreases |b|
  {
    if b == [] {
      assert a + b == a;
    } else {
      hide KeyOf, IsValid;
      var init, x := b[..|b| - 1], b[|b| - 1];
      UsersOwnConcat(a, init, distribution);
      assert (a + b)[..|a + b| - 1] == a + init && (a + b)[|a + b| - 1] == x;
      var p, q := UsersOwn(a, distribution), UsersOwn(init, distribution);
      assert p + (q + [x]) == p + q + [x] && p + (q + []) == p + q + [];
    }
  }

  lemma {:induction false} NoUsersOwn(cats: seq<Xexp>, distribution: string)
    requires forall x :: x in cats ==> KeyOf(x).Some?
    ensures UsersOwn(cats, distribution) == []
  {
    if cats != [] {
      NoUsersOwn(cats[..|cats| - 1], distribution);
    }
  }

  /** All of them are the user's own, unless one has another tag. */
  lemma {:induction false} AllUsersOwn(cats: seq<Xexp>, distribution: string)
    requires forall x :: x in cats ==> KeyOf(x).None? && IsValid(x, distribution)
    ensures |UsersOwn(cats, distribution)| <= |cats|
    ensures |UsersOwn(cats, distribution)| == |cats| <==> forall x :: x in cats ==> x.tag == "catalogue"
    ensures |UsersOwn(cats, distribution)| == |cats| ==> UsersOwn(cats, distribution) == cats
  {
    hide KeyOf, IsValid;
    if cats != [] {
      var init, x := cats[..|cats| - 1], cats[|cats| - 1];
      assert forall y :: y in cats <==> y in init || y == x;
      AllUsersOwn(init, distribution);
      var own := UsersOwn(init, distribution);
      assert UsersOwn(cats, distribution) == if x.tag == "catalogue" then own + [x] else own;
      hide UsersOwn;
    }
  }

  /** The second reading. */
  lemma Reread(pkgs: seq<Xexp>, cats: seq<Xexp>, distribution: string)
    requires Keyed(pkgs) && Overlay(pkgs, cats, distribution)
    ensures AddUserCatalogues(pkgs, WriteUserCatalogues(cats), distribution)
            == Overridden(pkgs, cats) + UsersOwn(cats, distribution)
    ensures UsersOwn(cats, distribution) == UsersOwn(cats[|pkgs|..], distribution)
  {
    hide AsetBool, ArefBool, Adel, KeyOf, IsValid, WriteUserCatalogues, AddUserCatalogues;
    Persistence(pkgs, cats, distribution);
    assert cats == cats[..|pkgs|] + cats[|pkgs|..];
    UsersOwnConcat(cats[..|pkgs|], cats[|pkgs|..], distribution);
    NoUsersOwn(cats[..|pkgs|], distribution);
  }

  /** The flag that a catalogue has after it has been written and read again. */
  function FlagAgain(pkgs: seq<Xexp>, cats: seq<Xexp>, i: nat): bool
    requires i < |pkgs|
  {
    var n := LastReference(cats, KeyOf(pkgs[i]));
    ArefBool(if n < |cats| then cats[n] else pkgs[i], "disabled")
  }

  /** The flag of each first catalogue with a key is that of the last entry that is written
      for this key; if there is none it is the package's own. */
  predicate FlagsSettled(pkgs: seq<Xexp>, cats: seq<Xexp>)
    requires |pkgs| <= |cats|
  {
    forall i :: 0 <= i < |pkgs| && FirstWithKey(pkgs, i) ==> ArefBool(cats[i], "disabled") == FlagAgain(pkgs, cats, i)
  }

  /** One catalogue read again. */
  lemma RereadOne(pkgs: seq<Xexp>, cats: seq<Xexp>, distribution: string, i: nat)
    requires Keyed(pkgs) && Overlay(pkgs, cats, distribution) && i < |pkgs|
    ensures var again := Overridden(pkgs, cats)[i];
            && cats[i].tag == pkgs[i].tag == again.tag && KeyOf(again) == KeyOf(cats[i]) && KeyOf(again).Some?
            && (!FirstWithKey(pkgs, i) ==> again == cats[i])
            && (FirstWithKey(pkgs, i) ==> ArefBool(again, "disabled") == FlagAgain(pkgs, cats, i))
            && Adel(again, "disabled") == Adel(cats[i], "disabled")
  {
    hide AsetBool, ArefBool, Adel, KeyOf, IsValid;
    TagKept(cats[i], pkgs[i]);
    if FirstWithKey(pkgs, i) {
      OverrideByLast(pkgs[i], cats);
      OverrideKeepsKey(pkgs[i], cats);
      var n := LastReference(cats, KeyOf(pkgs[i]));
      if n < |cats| {
        FlagRead(pkgs[i], ArefBool(cats[n], "disabled"));
        TagKept(Overridden(pkgs, cats)[i], pkgs[i]);
      }
    }
  }

  /** Reading, writing and reading again changes nothing exactly if every entry of the user's
      own has the tag that the writer looks for and the flags are settled. */
  lemma RereadIsSame(files: seq<(string, seq<Xexp>)>, user: seq<Xexp>, distribution: string)
    ensures var pkgs := PackageCatalogues(files, distribution);
            var cats := AddUserCatalogues(pkgs, user, distribution);
            var again := AddUserCatalogues(pkgs, WriteUserCatalogues(cats), distribution);
            |cats| >= |pkgs| &&
            (SameCatalogues(cats, again) <==>
             (forall x :: x in cats[|pkgs|..] ==> x.tag == "catalogue") && FlagsSettled(pkgs, cats))
  {
    hide AsetBool, ArefBool, Adel, KeyOf, IsValid, WriteUserCatalogues, AddUserCatalogues, PackageCatalogues, FlagAgain,
         FirstWithKey, Overridden;
    var pkgs := PackageCatalogues(files, distribution);
    var cats := AddUserCatalogues(pkgs, user, distribution);
    ReadOverlay(files, user, distribution);
    Reread(pkgs, cats, distribution);
    var over, own := Overridden(pkgs, cats), cats[|pkgs|..];
    AllUsersOwn(own, distribution);
    forall i | 0 <= i < |pkgs|
      ensures SameCatalogue(cats[i], over[i]) <==>
              (FirstWithKey(pkgs, i) ==> ArefBool(cats[i], "disabled") == FlagAgain(pkgs, cats, i))
    {
      RereadOne(pkgs, cats, distribution, i);
    }
    SameInParts(cats, over, own, UsersOwn(own, distribution));
  }

  lemma ReadOverlay(files: seq<(string, seq<Xexp>)>, user: seq<Xexp>, distribution: string)
    ensures var pkgs := PackageCatalogues(files, distribution);
            Keyed(pkgs) && Overlay(pkgs, AddUserCatalogues(pkgs, user, distribution), distribution)
  {
    hide AsetBool, ArefBool, Adel, KeyOf, IsValid, AddUserCatalogues, PackageCatalogues, FirstWithKey;
    var pkgs := PackageCatalogues(files, distribution);
    PackageCataloguesAreKeyed(files, distribution);
    forall i | 0 <= i < |pkgs|
      ensures KeyOf(pkgs[i]).Some?
    {
      assert pkgs[i] in pkgs;
    }
    ReadIsOverlay(pkgs, pkgs, user, distribution);
  }

  lemma SameInParts(cats: seq<Xexp>, over: seq<Xexp>, own: seq<Xexp>, ownAgain: seq<Xexp>)
    requires |over| <= |cats| && own == cats[|over|..]
    requires |ownAgain| == |own| ==> ownAgain == own
    ensures SameCatalogues(cats, over + ownAgain) <==>
            |ownAgain| == |own| && forall i :: 0 <= i < |over| ==> SameCatalogue(cats[i], over[i])
  {
    hide Adel, ArefBool;
    var again := over + ownAgain;
    assert forall i :: 0 <= i < |over| ==> again[i] == over[i];
    if |ownAgain| == |own| {
      assert forall i :: |over| <= i < |cats| ==> again[i] == own[i - |over|] == cats[i];
    }
  }

  /** With distinct keys the flags are settled but for package catalogues of another tag. */
  lemma DistinctAreSettled(pkgs: seq<Xexp>, cats: seq<Xexp>, distribution: string)
    requires Keyed(pkgs) && DistinctKeys(pkgs) && Overlay(pkgs, cats, distribution)
    ensures FlagsSettled(pkgs, cats) <==>
            forall i :: 0 <= i < |pkgs| ==>
              pkgs[i].tag == "catalogue" || ArefBool(cats[i], "disabled") == ArefBool(pkgs[i], "disabled")
  {
    hide ArefBool, Adel, KeyOf, IsValid;
    forall i | 0 <= i < |pkgs|
      ensures FirstWithKey(pkgs, i)
      ensures LastReference(cats, KeyOf(pkgs[i])) == if pkgs[i].tag == "catalogue" then i else |cats|
    {
      TagKept(cats[i], pkgs[i]);
      var n := LastReference(cats, KeyOf(pkgs[i]));
      assert n < |cats| ==> n < |pkgs| && KeyOf(pkgs[n]) == KeyOf(pkgs[i]);
    }
  }

  lemma TagKept(a: Xexp, b: Xexp)
    requires Adel(a, "disabled") == Adel(b, "disabled")
    ensures a.tag == b.tag
  {
  }

  lemma FlagRead(p: Xexp, val: bool)
    requires KeyOf(p).Some?
    ensures ArefBool(AsetBool(p, "disabled", val), "disabled") == val
    ensures Adel(AsetBool(p, "disabled", val), "disabled") == Adel(p, "disabled")
  {
    AsetBoolReads(p, "disabled", val, "file");
    AdelAfterFlag(p, val);
  }

  /** What is written for a package catalogue shows whether the flag is set, but not its
      place and form. */
  lemma SameReference(a: Xexp, b: Xexp)
    requires Adel(a, "disabled") == Adel(b, "disabled") && KeyOf(a).Some? && KeyOf(b).Some?
    ensures |WriteCatalogue(a)| == |WriteCatalogue(b)|
    ensures WriteCatalogue(a) == WriteCatalogue(b) <==>
            a.tag != "catalogue" || ArefBool(a, "disabled") == ArefBool(b, "disabled")
  {
    TagKept(a, b);
    FindDropped(a.kids, "disabled", "file");
    FindDropped(a.kids, "disabled", "id");
    FindDropped(b.kids, "disabled", "file");
    FindDropped(b.kids, "disabled", "id");
    hide Reference;
    ReferenceReads(a);
    ReferenceReads(b);
    if ArefBool(a, "disabled") == ArefBool(b, "disabled") {
      SameFieldsSameReference(a, b);
    }
  }

  lemma SameFieldsSameReference(a: Xexp, b: Xexp)
    requires ArefBool(a, "disabled") == ArefBool(b, "disabled")
    requires ArefText(a, "id") == ArefText(b, "id") && ArefText(a, "file") == ArefText(b, "file")
    ensures Reference(a) == Reference(b)
  {
  }

  lemma {:induction false} WriteConcat(a: seq<Xexp>, b: seq<Xexp>)
    ensures WriteUserCatalogues(a + b) == WriteUserCatalogues(a) + WriteUserCatalogues(b)
    decreases |b|
  {
    hide WriteCatalogue;
    if b == [] {
      assert a + b == a;
    } else {
      WriteConcat(a, b[..|b| - 1]);
      assert (a + b)[..|a + b| - 1] == a + b[..|b| - 1];
    }
  }

  lemma {:induction false} WriteSame(a: seq<Xexp>, b: seq<Xexp>)
    requires |a| == |b|
    requires forall i :: 0 <= i < |a| ==> |WriteCatalogue(a[i])| == |WriteCatalogue(b[i])|
    ensures |WriteUserCatalogues(a)| == |WriteUserCatalogues(b)|
    ensures WriteUserCatalogues(a) == WriteUserCatalogues(b) <==>
            forall i :: 0 <= i < |a| ==> WriteCatalogue(a[i]) == WriteCatalogue(b[i])
  {
    hide WriteCatalogue;
    if a != [] {
      var m := |a| - 1;
      WriteSame(a[..m], b[..m]);
      SameEnds(WriteUserCatalogues(a[..m]), WriteCatalogue(a[m]), WriteUserCatalogues(b[..m]), WriteCatalogue(b[m]));
      assert forall i :: 0 <= i < m ==> a[..m][i] == a[i] && b[..m][i] == b[i];
    }
  }

  lemma SameEnds<T>(a: seq<T>, x: seq<T>, b: seq<T>, y: seq<T>)
    requires |a| == |b|
    ensures a + x == b + y <==> a == b && x == y
  {
    assert (a + x)[..|a|] == a && (a + x)[|a|..] == x;
    assert (b + y)[..|b|] == b && (b + y)[|b|..] == y;
  }

  lemma WriteOne(x: Xexp)
    ensures WriteUserCatalogues([x]) == WriteCatalogue(x)
  {
    assert [x][..0] == [] && [] + WriteCatalogue(x) == WriteCatalogue(x);
  }

  lemma {:induction false} WriteUsersOwn(cats: seq<Xexp>, distribution: string)
    requires forall x :: x in cats ==> KeyOf(x).None? && IsValid(x, distribution)
    ensures WriteUserCatalogues(cats) == UsersOwn(cats, distribution)
    ensures WriteUserCatalogues(UsersOwn(cats, distribution)) == UsersOwn(cats, distribution)
  {
    if cats != [] {
      var init, x := cats[..|cats| - 1], cats[|cats| - 1];
      WriteUsersOwn(init, distribution);
      WriteConcat(UsersOwn(init, distribution), if x.tag == "catalogue" then [x] else []);
      if x.tag == "catalogue" {
        WriteOne(x);
      }
    }
  }

  /** Reading the file and writing it again leaves the file as it is exactly if the flags
      of the catalogues that are written are settled. */
  lemma FileIsStable(files: seq<(string, seq<Xexp>)>, user: seq<Xexp>, distribution: string)
    ensures var pkgs := PackageCatalogues(files, distribution);
            var cats := AddUserCatalogues(pkgs, user, distribution);
            var file := WriteUserCatalogues(cats);
            |cats| >= |pkgs| &&
            (WriteUserCatalogues(AddUserCatalogues(pkgs, file, distribution)) == file <==>
             forall i :: 0 <= i < |pkgs| && FirstWithKey(pkgs, i) && pkgs[i].tag == "catalogue" ==>
               ArefBool(cats[i], "disabled") == FlagAgain(pkgs, cats, i))
  {
    hide AsetBool, ArefBool, Adel, KeyOf, IsValid, WriteUserCatalogues, AddUserCatalogues, WriteCatalogue,
         PackageCatalogues, FlagAgain, FirstWithKey, Overridden;
    var pkgs := PackageCatalogues(files, distribution);
    var cats := AddUserCatalogues(pkgs, user, distribution);
    ReadOverlay(files, user, distribution);
    Reread(pkgs, cats, distribution);
    var first, own, over := cats[..|pkgs|], cats[|pkgs|..], Overridden(pkgs, cats);
    assert cats == first + own;
    WriteConcat(first, own);
    WriteConcat(over, UsersOwn(own, distribution));
    WriteUsersOwn(own, distribution);
    forall i | 0 <= i < |pkgs|
      ensures |WriteCatalogue(over[i])| == |WriteCatalogue(first[i])|
      ensures WriteCatalogue(over[i]) == WriteCatalogue(first[i]) <==>
              (FirstWithKey(pkgs, i) && pkgs[i].tag == "catalogue" ==>
                 ArefBool(cats[i], "disabled") == FlagAgain(pkgs, cats, i))
    {
      RereadOne(pkgs, cats, distribution, i);
      SameReference(cats[i], over[i]);
    }
    WriteSame(over, first);
    SameEnds(WriteUserCatalogues(over), WriteUserCatalogues(own), WriteUserCatalogues(first), WriteUserCatalogues(own));
  }

  /** With two package catalogues of the same key the flag of the second is given to the
      first by reading again. */
  lemma SameKeysAreMixedUp()
    ensures exists pkgs: seq<Xexp> :: |pkgs| == 2 && KeyOf(pkgs[0]).Some? && KeyOf(pkgs[0]) == KeyOf(pkgs[1])
              && AddUserCatalogues(pkgs, [], "d") == pkgs
              && !SameCatalogues(pkgs, AddUserCatalogues(pkgs, WriteUserCatalogues(pkgs), "d"))
  {
    var p := List("catalogue", [Text("file", "f"), Text("id", "i")]);
    var q := AsetBool(p, "disabled", true);
    var pkgs := [p, q];
    FlagKeepsKey(p, true);
    AsetBoolReads(p, "disabled", true, "id");
    assert p.kids[1..][0] == Text("id", "i");
    assert KeyOf(p).Some?;
    assert !ArefBool(p, "disabled");
    Persistence(pkgs, pkgs, "d");
    assert FirstWithKey(pkgs, 0);
    assert (Overridden(pkgs, pkgs) + UsersOwn(pkgs, "d"))[0] == Override(p, pkgs) == AsetBool(p, "disabled", true);
    AsetBoolReads(p, "disabled", true, "file");
  }

  // ---- Package files

  /** A valid catalogue from the package file `file`, which says so. */
  predicate FromPackage(x: Xexp, file: string, distribution: string) {
    KeyOf(x).Some? && IsValid(x, distribution) && ArefText(x, "file") == Some(file)
  }

  lemma {:induction false} AddedAreFromPackage(global: seq<Xexp>, cat: seq<Xexp>, file: string, distribution: string)
    ensures global <= AddPackageCatalogues(global, cat, file, distribution)
    ensures forall x :: x in AddPackageCatalogues(global, cat, file, distribution)[|global|..] ==>
              FromPackage(x, file, distribution)
    decreases |cat|
  {
    if cat != [] {
      hide FromPackage, IsValid;
      var next := AddPackageCatalogue(global, cat[0], file, distribution);
      assert next == global || (next == global + [next[|global|]] && FromPackage(next[|global|], file, distribution)) by {
        AddedIsFromPackage(global, cat[0], file, distribution);
      }
      AddedAreFromPackage(next, cat[1..], file, distribution);
      var all := AddPackageCatalogues(next, cat[1..], file, distribution);
      assert all[|global|..] == next[|global|..] + all[|next|..];
    }
  }

  lemma AddedIsFromPackage(global: seq<Xexp>, m: Xexp, file: string, distribution: string)
    ensures var next := AddPackageCatalogue(global, m, file, distribution);
            next == global || (next == global + [next[|global|]] && FromPackage(next[|global|], file, distribution))
  {
    if ArefText(m, "id").Some? {
      AsetTextReads(m, "file", file, "id");
      AsetTextReads(m, "file", file, "filter_dist");
    }
  }

  /** Whatever the package files hold, each catalogue read from them is valid, can be
      referred to, and names the file that it comes from. */
  lemma {:induction false} PackageCataloguesAreKeyed(files: seq<(string, seq<Xexp>)>, distribution: string)
    ensures forall x :: x in PackageCatalogues(files, distribution) ==>
              exists f :: f in files && FromPackage(x, f.0, distribution)
  {
    hide FromPackage;
    if files != [] {
      var init, last := files[..|files| - 1], files[|files| - 1];
      PackageCataloguesAreKeyed(init, distribution);
      var before, after := PackageCatalogues(init, distribution), PackageCatalogues(files, distribution);
      AddedAreFromPackage(before, last.1, last.0, distribution);
      assert after == before + after[|before|..];
      assert last in files;
      forall x | x in after
        ensures exists f :: f in files && FromPackage(x, f.0, distribution)
      {
        if x in before {
          var f :| f in init && FromPackage(x, f.0, distribution);
          assert f in files;
        }
      }
    }
  }

  // ---- What a key ignores

  /** The same letters, in either case of the ASCII ones. */
  predicate SameIgnoringCase(a: string, b: string) {
    |a| == |b| && forall i :: 0 <= i < |a| ==>
      || a[i] == b[i]
      || ('A' <= a[i] <= 'Z' && b[i] as int == a[i] as int + 32)
      || ('A' <= b[i] <= 'Z' && a[i] as int == b[i] as int + 32)
  }

  lemma LowerIgnoresCase(a: string, b: string)
    ensures AsciiLower(a) == AsciiLower(b) <==> SameIgnoringCase(a, b)
  {
    var p, q := AsciiLower(a), AsciiLower(b);
    assert p == q ==> forall i :: 0 <= i < |a| ==> Lower(a[i]) == p[i] == q[i] == Lower(b[i]);
  }

  /** Catalogues have the same key exactly if both have a file and an id and these are the
      same but for the case of ASCII letters. */
  lemma SameKeys(x: Xexp, y: Xexp)
    requires KeyOf(x).Some?
    ensures KeyOf(x) == KeyOf(y) <==>
            && ArefText(y, "file").Some? && ArefText(y, "id").Some?
            && SameIgnoringCase(ArefText(x, "file").value, ArefText(y, "file").value)
            && SameIgnoringCase(ArefText(x, "id").value, ArefText(y, "id").value)
  {
    hide ArefText, AsciiLower, SameIgnoringCase;
    if ArefText(y, "file").Some? && ArefText(y, "id").Some? {
      LowerIgnoresCase(ArefText(x, "file").value, ArefText(y, "file").value);
      LowerIgnoresCase(ArefText(x, "id").value, ArefText(y, "id").value);
    }
  }

  // ---- Which catalogues are for a distribution

  /** The entry `m` of a package file yields the catalogue `x`: it has an id, names no
      distribution or this one, and gets the name of its file. */
  predicate Yields(m: Xexp, file: string, distribution: string, x: Xexp) {
    && ArefText(m, "id").Some? && x == AsetText(m, "file", Some(file))
    && (ArefText(m, "filter_dist").None? || ArefText(m, "filter_dist") == Some(distribution))
  }

  lemma {:induction false} FileYields(global: seq<Xexp>, cat: seq<Xexp>, file: string, distribution: string, x: Xexp)
    ensures x in AddPackageCatalogues(global, cat, file, distribution) <==>
            x in global || exists m :: m in cat && Yields(m, file, distribution, x)
    decreases |cat|
  {
    hide Yields;
    if cat != [] {
      EntryYields(global, cat[0], file, distribution, x);
      FileYields(AddPackageCatalogue(global, cat[0], file, distribution), cat[1..], file, distribution, x);
      assert forall m :: m in cat <==> m == cat[0] || m in cat[1..];
      hide AddPackageCatalogue;
      if m :| m in cat && Yields(m, file, distribution, x) {
        assert Yields(cat[0], file, distribution, x) || m in cat[1..];
      }
    }
  }

  lemma EntryYields(global: seq<Xexp>, m: Xexp, file: string, distribution: string, x: Xexp)
    ensures x in AddPackageCatalogue(global, m, file, distribution) <==> x in global || Yields(m, file, distribution, x)
  {
    hide AsetText, ArefText;
  }

  /** A catalogue is read from the package files exactly if one of their entries yields it. */
  lemma {:induction false} PackagesByFilter(files: seq<(string, seq<Xexp>)>, distribution: string, x: Xexp)
    ensures x in PackageCatalogues(files, distribution) <==>
            exists f, m :: f in files && m in f.1 && Yields(m, f.0, distribution, x)
  {
    hide Yields;
    if files != [] {
      var init, last := files[..|files| - 1], files[|files| - 1];
      PackagesByFilter(init, distribution, x);
      FileYields(PackageCatalogues(init, distribution), last.1, last.0, distribution, x);
      assert forall f :: f in files <==> f in init || f == last;
    }
  }

  /** Of the entries of the user's file that refer to no package, exactly those are read that
      name no distribution or this one. */
  lemma {:induction false} UsersByFilter(global: seq<Xexp>, user: seq<Xexp>, distribution: string, x: Xexp)
    requires KeyOf(x).None?
    ensures x in AddUserCatalogues(global, user, distribution) <==>
            || x in global
            || (x in user && (ArefText(x, "filter_dist").None? || ArefText(x, "filter_dist") == Some(distribution)))
    decreases |user|
  {
    hide KeyOf, ArefText, AsetBool, ArefBool;
    if user != [] {
      var next := AddUserCatalogue(global, user[0], distribution);
      UsersByFilter(next, user[1..], distribution, x);
      OneUserByFilter(global, user[0], distribution, x);
      assert x in user <==> x == user[0] || x in user[1..];
    }
  }

  lemma OneUserByFilter(global: seq<Xexp>, m: Xexp, distribution: string, x: Xexp)
    requires KeyOf(x).None?
    ensures x in AddUserCatalogue(global, m, distribution) <==>
            || x in global
            || (x == m && (ArefText(x, "filter_dist").None? || ArefText(x, "filter_dist") == Some(distribution)))
  {
    hide KeyOf, AsetBool, ArefBool;
    var n := FindPackage(KeyOf(m), global);
    if n < |global| {
      var flagged := AsetBool(global[n], "disabled", ArefBool(m, "disabled"));
      FlagKeepsKey(global[n], ArefBool(m, "disabled"));
      InUpdated(global, n, flagged, x);
    }
  }

  lemma InUpdated<T>(s: seq<T>, n: nat, y: T, x: T)
    requires n < |s| && x != y && x != s[n]
    ensures x in s[n := y] <==> x in s
  {
    if x in s {
      var i :| 0 <= i < |s| && s[i] == x;
      assert s[n := y][i] == x;
    }
  }
}
