/** Trust: from which domain a package comes, and which of its sources are used. */
module Trust {
  import opened Wrappers

  datatype Domain = Domain(level: int, certified: bool)

  const DOMAIN_UNSIGNED: nat := 0
  const DOMAIN_SIGNED: nat := 1

  /** The two implicit domains, and no negative levels. */
  predicate ValidDomains(ds: seq<Domain>) {
    && |ds| >= 2 && ds[DOMAIN_UNSIGNED] == Domain(0, false) && ds[DOMAIN_SIGNED] == Domain(1, false)
    && forall i :: 0 <= i < |ds| ==> ds[i].level >= 0
  }

  /** What is fixed while the sources of a package are scanned: the domains, that of the
      installed version, and whether there is none. */
  datatype Setting = Setting(domains: seq<Domain>, cur: nat, isNew: bool) {
    predicate Valid() {
      ValidDomains(domains) && cur < |domains|
    }

    function Level(d: nat): int
      requires Valid() && d < |domains|
    {
      domains[d].level
    }

    function CurLevel(): int
      requires Valid()
    {
      domains[cur].level
    }
  }

  /** A version's files, each with the domain of its index if it has one. */
  predicate ValidFiles(st: Setting, files: seq<Option<nat>>) {
    forall f :: f in files && f.Some? ==> f.value < |st.domains|
  }

  /** The new domain once an index in domain `d` has been seen, and the level it counts as. */
  function Consider(st: Setting, domain: nat, d: nat): (r: (nat, int))
    requires st.Valid() && domain < |st.domains| && d < |st.domains|
    ensures r.0 < |st.domains|
  {
    if domain != DOMAIN_UNSIGNED then
      if d == domain || st.Level(d) > st.Level(domain) then (d, st.Level(d)) else (domain, -1)
    else if st.isNew || st.Level(d) >= st.CurLevel() then (d, st.Level(d))
    else (domain, st.CurLevel())
  }

  /** The new domain, the level reached, and the files kept for it. */
  datatype Scan = Scan(domain: nat, level: int, kept: seq<nat>)

  function ScanOne(st: Setting, s: Scan, i: nat, file: Option<nat>): (r: Scan)
    requires st.Valid() && s.domain < |st.domains| && (file.Some? ==> file.value < |st.domains|)
    ensures r.domain < |st.domains|
  {
    if file.None? then s
    else
      var (domain, l) := Consider(st, s.domain, file.value);
      if l > s.level then Scan(domain, l, [i])
      else if l == s.level then Scan(domain, l, s.kept + [i])
      else s.(domain := domain)
  }

  function ScanFiles(st: Setting, start: nat, files: seq<Option<nat>>): (r: Scan)
    requires st.Valid() && start < |st.domains| && ValidFiles(st, files)
    ensures r.domain < |st.domains|
  {
    if files == [] then Scan(start, 0, [])
    else
      ScanOne(st, ScanFiles(st, start, files[..|files| - 1]), |files| - 1, files[|files| - 1])
  }

  // ---- What counts

  /** The highest level of an index, or -1 if there is none. */
  function Best(st: Setting, files: seq<Option<nat>>): (r: int)
    requires st.Valid() && ValidFiles(st, files)
    ensures r >= -1
  {
    if files == [] then -1
    else
      var best, f := Best(st, files[..|files| - 1]), files[|files| - 1];
      if f.Some? && st.Level(f.value) > best then st.Level(f.value) else best
  }

  lemma {:induction false} BestIsMaximum(st: Setting, files: seq<Option<nat>>)
    requires st.Valid() && ValidFiles(st, files)
    ensures forall f :: f in files && f.Some? ==> st.Level(f.value) <= Best(st, files)
    ensures Best(st, files) == -1 <==> forall f :: f in files ==> f.None?
    ensures Best(st, files) >= 0 ==> exists f :: f in files && f.Some? && st.Level(f.value) == Best(st, files)
  {
    if files != [] {
      var init, f := files[..|files| - 1], files[|files| - 1];
      BestIsMaximum(st, init);
      assert files == init + [f];
      assert f in files && forall g :: g in init ==> g in files;
    }
  }

  /** The level of the new domain never falls. */
  lemma {:induction false} DomainNeverFalls(st: Setting, start: nat, files: seq<Option<nat>>, n: nat)
    requires st.Valid() && start < |st.domains| && ValidFiles(st, files) && n <= |files|
    ensures st.Level(ScanFiles(st, start, files[..n]).domain) <= st.Level(ScanFiles(st, start, files).domain)
    decreases |files|
  {
    if n == |files| {
      assert files[..n] == files;
    } else {
      var init := files[..|files| - 1];
      DomainNeverFalls(st, start, init, n);
      assert init[..n] == files[..n];
    }
  }

  /** Where the scan ends: at the highest level for a new package, and for an upgrade when
      that reaches the current level; else the new domain stays unsigned. */
  lemma {:induction false} ScanEndsAtBest(st: Setting, files: seq<Option<nat>>)
    requires st.Valid() && ValidFiles(st, files)
    ensures var s := ScanFiles(st, DOMAIN_UNSIGNED, files);
            var best := Best(st, files);
            if best == -1 then s == Scan(DOMAIN_UNSIGNED, 0, [])
            else if st.isNew || best >= st.CurLevel() then st.Level(s.domain) == best && s.level == best
            else s.domain == DOMAIN_UNSIGNED && s.level == st.CurLevel()
  {
    if files != [] {
      ScanEndsAtBest(st, files[..|files| - 1]);
    }
  }

  /** The file whose index gives the new domain.  For an upgrade only indexes of at least the
      current level count.  Of several of the highest level the first one is taken; at level
      zero the first that is not unsigned. */
  predicate Decides(st: Setting, files: seq<Option<nat>>, k: nat)
    requires st.Valid() && ValidFiles(st, files) && k < |files|
  {
    && files[k].Some? && (st.isNew || st.Level(files[k].value) >= st.CurLevel())
    && (forall f :: f in files && f.Some? ==> st.Level(f.value) <= st.Level(files[k].value))
    && if st.Level(files[k].value) > 0
       then forall j :: 0 <= j < k && files[j].Some? ==> st.Level(files[j].value) < st.Level(files[k].value)
       else files[k] != Some(DOMAIN_UNSIGNED)
            && forall j :: 0 <= j < k && files[j].Some? ==> files[j] == Some(DOMAIN_UNSIGNED)
  }

  /** Only indexes that are unsigned or do not count leave the new domain unsigned. */
  lemma {:induction false} UnsignedStays(st: Setting, files: seq<Option<nat>>, j: nat)
    requires st.Valid() && ValidFiles(st, files) && j < |files| && files[j].Some?
    requires ScanFiles(st, DOMAIN_UNSIGNED, files).domain == DOMAIN_UNSIGNED
    ensures files[j] == Some(DOMAIN_UNSIGNED) || (!st.isNew && st.Level(files[j].value) < st.CurLevel())
  {
    var init := files[..|files| - 1];
    if j < |init| {
      DomainNeverFalls(st, DOMAIN_UNSIGNED, files, |init|);
      if ScanFiles(st, DOMAIN_UNSIGNED, init).domain == DOMAIN_UNSIGNED {
        UnsignedStays(st, init, j);
      }
    }
  }

  lemma StillDecides(st: Setting, files: seq<Option<nat>>, k: nat)
    requires st.Valid() && ValidFiles(st, files) && k < |files| - 1 && Decides(st, files[..|files| - 1], k)
    requires var before := ScanFiles(st, DOMAIN_UNSIGNED, files[..|files| - 1]).domain;
             files[k] == Some(before) && ScanFiles(st, DOMAIN_UNSIGNED, files).domain == before != DOMAIN_UNSIGNED
    ensures Decides(st, files, k)
  {
    var init, f := files[..|files| - 1], files[|files| - 1];
    assert files == init + [f];
    assert f.Some? ==> st.Level(f.value) <= st.Level(files[k].value);
    hide ScanFiles;
  }

  /** A file that changes the domain decides. */
  lemma ChangeDecides(st: Setting, files: seq<Option<nat>>, k0: nat)
    requires st.Valid() && ValidFiles(st, files) && files != []
    requires var init := files[..|files| - 1];
             var before := ScanFiles(st, DOMAIN_UNSIGNED, init).domain;
             && ScanFiles(st, DOMAIN_UNSIGNED, files).domain != before
             && (before != DOMAIN_UNSIGNED ==> k0 < |init| && Decides(st, init, k0) && init[k0] == Some(before))
    ensures Decides(st, files, |files| - 1)
    ensures files[|files| - 1] == Some(ScanFiles(st, DOMAIN_UNSIGNED, files).domain)
  {
    var init, f := files[..|files| - 1], files[|files| - 1];
    var before := ScanFiles(st, DOMAIN_UNSIGNED, init).domain;
    assert files == init + [f];
    if before == DOMAIN_UNSIGNED {
      forall j | 0 <= j < |init| && files[j].Some?
        ensures files[j] == Some(DOMAIN_UNSIGNED) || (!st.isNew && st.Level(files[j].value) < st.CurLevel())
      {
        UnsignedStays(st, init, j);
      }
    } else {
      assert st.Level(f.value) > st.Level(before);
      assert forall j :: 0 <= j < |init| ==> files[j] in init;
    }
  }

  /** A new domain other than the unsigned one is that of the deciding file. */
  lemma {:induction false} DomainIsDecided(st: Setting, files: seq<Option<nat>>) returns (k: nat)
    requires st.Valid() && ValidFiles(st, files) && ScanFiles(st, DOMAIN_UNSIGNED, files).domain != DOMAIN_UNSIGNED
    ensures k < |files| && Decides(st, files, k) && files[k] == Some(ScanFiles(st, DOMAIN_UNSIGNED, files).domain)
  {
    assert files != [];
    hide ScanFiles, Decides;
    var init := files[..|files| - 1];
    var before, after := ScanFiles(st, DOMAIN_UNSIGNED, init).domain, ScanFiles(st, DOMAIN_UNSIGNED, files).domain;
    k := 0;
    if before != DOMAIN_UNSIGNED {
      k := DomainIsDecided(st, init);
    }
    if before == after {
      StillDecides(st, files, k);
    } else {
      ChangeDecides(st, files, k);
      k := |files| - 1;
    }
  }

  /** And the other way round. */
  lemma {:induction false} DecidedDomain(st: Setting, files: seq<Option<nat>>, k: nat)
    requires st.Valid() && ValidFiles(st, files) && k < |files| && Decides(st, files, k)
    ensures files[k] == Some(ScanFiles(st, DOMAIN_UNSIGNED, files).domain)
  {
    var init, f := files[..|files| - 1], files[|files| - 1];
    assert files == init + [f];
    if k < |init| {
      DecidedDomain(st, init, k);
    } else if ScanFiles(st, DOMAIN_UNSIGNED, init).domain != DOMAIN_UNSIGNED {
      var k0 := DomainIsDecided(st, init);
      assert init[k0] == files[k0];
    }
  }

  /** The index of the first file that has an index. */
  function FirstIndexed(files: seq<Option<nat>>): (n: nat)
    ensures n <= |files| && (n < |files| ==> files[n].Some?)
    ensures forall i :: 0 <= i < n ==> files[i].None?
  {
    if files == [] || files[0].Some? then 0 else 1 + FirstIndexed(files[1..])
  }

  predicate KeptValid(files: seq<Option<nat>>, kept: seq<nat>) {
    forall k :: k in kept ==> k < |files| && files[k].Some?
  }

  lemma {:induction false} KeptHaveIndexes(st: Setting, start: nat, files: seq<Option<nat>>)
    requires st.Valid() && start < |st.domains| && ValidFiles(st, files)
    ensures KeptValid(files, ScanFiles(st, start, files).kept)
  {
    if files != [] {
      KeptHaveIndexes(st, start, files[..|files| - 1]);
    }
  }

  /** Every file kept comes from an index of the highest level. */
  predicate KeptAreBest(st: Setting, files: seq<Option<nat>>, kept: seq<nat>)
    requires st.Valid() && ValidFiles(st, files) && KeptValid(files, kept)
  {
    forall k :: k in kept ==> st.Level(files[k].value) == Best(st, files)
  }

  /** For a new package, or above the current level, only the best are kept. */
  lemma {:induction false} BestAreKept(st: Setting, files: seq<Option<nat>>)
    requires st.Valid() && ValidFiles(st, files)
    requires st.isNew || Best(st, files) > st.CurLevel()
    ensures var kept := ScanFiles(st, DOMAIN_UNSIGNED, files).kept;
            KeptValid(files, kept) && KeptAreBest(st, files, kept)
  {
    KeptHaveIndexes(st, DOMAIN_UNSIGNED, files);
    ScanEndsAtBest(st, files);
    if files != [] {
      var init := files[..|files| - 1];
      ScanEndsAtBest(st, init);
      KeptHaveIndexes(st, DOMAIN_UNSIGNED, init);
      if st.isNew || Best(st, init) > st.CurLevel() {
        BestAreKept(st, init);
      }
    }
  }

  /** Up to the current level an upgrade keeps its first source.  If that is of the current
      level, only such are kept; below the current level all are kept. */
  lemma {:induction false} UpgradeKeepsFirst(st: Setting, files: seq<Option<nat>>)
    requires st.Valid() && ValidFiles(st, files)
    requires !st.isNew && 0 <= Best(st, files) <= st.CurLevel()
    ensures FirstIndexed(files) < |files|
    ensures FirstIndexed(files) in ScanFiles(st, DOMAIN_UNSIGNED, files).kept
    ensures var s := ScanFiles(st, DOMAIN_UNSIGNED, files);
            st.Level(files[FirstIndexed(files)].value) == st.CurLevel() ==>
            forall k :: k in s.kept ==> k < |files| && files[k].Some? && st.Level(files[k].value) == st.CurLevel()
    ensures var s := ScanFiles(st, DOMAIN_UNSIGNED, files);
            (s.domain == DOMAIN_UNSIGNED && st.Level(files[FirstIndexed(files)].value) == st.CurLevel()) ==>
            st.CurLevel() == 0
    ensures Best(st, files) < st.CurLevel() ==>
              forall i :: 0 <= i < |files| && files[i].Some? ==> i in ScanFiles(st, DOMAIN_UNSIGNED, files).kept
  {
    hide FirstIndexed;
    var init, f := files[..|files| - 1], files[|files| - 1];
    ScanEndsAtBest(st, files);
    ScanEndsAtBest(st, init);
    BestIsMaximum(st, init);
    KeptHaveIndexes(st, DOMAIN_UNSIGNED, files);
    if Best(st, init) >= 0 {
      UpgradeKeepsFirst(st, init);
      FirstOfInit(files);
    } else {
      FirstIsLast(files);
    }
  }

  lemma {:induction false} FirstOfInit(files: seq<Option<nat>>)
    requires files != [] && FirstIndexed(files[..|files| - 1]) < |files| - 1
    ensures FirstIndexed(files) == FirstIndexed(files[..|files| - 1])
  {
    var n, m := FirstIndexed(files), FirstIndexed(files[..|files| - 1]);
    assert files[m].Some? && forall i :: 0 <= i < m ==> files[..|files| - 1][i] == files[i];
  }

  lemma FirstIsLast(files: seq<Option<nat>>)
    requires files != [] && files[|files| - 1].Some? && forall f :: f in files[..|files| - 1] ==> f.None?
    ensures FirstIndexed(files) == |files| - 1
  {
    forall i | 0 <= i < |files| - 1
      ensures files[i].None?
    {
      assert files[..|files| - 1][i] == files[i];
    }
  }

  /** When only the most trusted sources are kept: always for a new package and for an
      upgrade to a higher level; at the current level exactly when the first source has
      it; and below it exactly when all sources are equal. */
  lemma OnlyBestAreKept(st: Setting, files: seq<Option<nat>>)
    requires st.Valid() && ValidFiles(st, files)
    ensures var kept := ScanFiles(st, DOMAIN_UNSIGNED, files).kept;
            var best, cur := Best(st, files), st.CurLevel();
            var first := FirstIndexed(files);
            KeptValid(files, kept) &&
            (KeptAreBest(st, files, kept) <==>
             || st.isNew || best > cur
             || (best == cur && first < |files| && st.Level(files[first].value) == cur)
             || (best < cur && forall f :: f in files && f.Some? ==> st.Level(f.value) == best))
  {
    KeptHaveIndexes(st, DOMAIN_UNSIGNED, files);
    BestIsMaximum(st, files);
    ScanEndsAtBest(st, files);
    var best, cur := Best(st, files), st.CurLevel();
    if st.isNew || best > cur {
      BestAreKept(st, files);
    } else if best >= 0 {
      UpgradeKeepsFirst(st, files);
      var kept := ScanFiles(st, DOMAIN_UNSIGNED, files).kept;
      if best < cur && KeptAreBest(st, files, kept) {
        forall f | f in files && f.Some?
          ensures st.Level(f.value) == best
        {
          var i :| 0 <= i < |files| && files[i] == f;
          assert i in kept;
        }
      }
    }
  }

  lemma DeciderIsBest(st: Setting, files: seq<Option<nat>>, k: nat)
    requires st.Valid() && ValidFiles(st, files) && k < |files| && Decides(st, files, k)
    ensures Best(st, files) == st.Level(files[k].value) && (st.isNew || Best(st, files) >= st.CurLevel())
  {
    BestIsMaximum(st, files);
    assert files[k] in files;
  }

  lemma InitDecides(st: Setting, files: seq<Option<nat>>, k: nat)
    requires st.Valid() && ValidFiles(st, files) && k < |files| - 1 && Decides(st, files, k)
    ensures Decides(st, files[..|files| - 1], k)
    ensures files[|files| - 1].Some? ==> st.Level(files[|files| - 1].value) <= st.Level(files[k].value)
  {
    assert files == files[..|files| - 1] + [files[|files| - 1]];
  }

  /** A file behind the deciding one is kept exactly if it is from the same domain. */
  lemma KeptBehind(st: Setting, files: seq<Option<nat>>, decider: nat)
    requires st.Valid() && ValidFiles(st, files) && decider < |files| - 1 && Decides(st, files, decider)
    requires st.Level(files[decider].value) > 0
    ensures var n := |files| - 1;
            && Decides(st, files[..n], decider)
            && ScanFiles(st, DOMAIN_UNSIGNED, files).kept
               == ScanFiles(st, DOMAIN_UNSIGNED, files[..n]).kept + if files[n] == files[decider] then [n] else []
  {
    var n := |files| - 1;
    var init := files[..n];
    InitDecides(st, files, decider);
    DecidedDomain(st, init, decider);
    DeciderIsBest(st, init, decider);
    ScanEndsAtBest(st, init);
    hide Best, Decides;
    var kept := ScanFiles(st, DOMAIN_UNSIGNED, init).kept;
    assert kept + [] == kept;
  }

  /** When the deciding file is reached it alone is kept, unless an upgrade has kept what does
      not count and now reaches just the current level. */
  lemma KeptAtDecider(st: Setting, files: seq<Option<nat>>, k: nat)
    requires st.Valid() && ValidFiles(st, files) && files != [] && Decides(st, files, |files| - 1)
    requires st.Level(files[|files| - 1].value) > 0
    ensures var n := |files| - 1;
            k in ScanFiles(st, DOMAIN_UNSIGNED, files).kept <==>
            k == n || (!st.isNew && st.Level(files[n].value) == st.CurLevel() && k < n && files[k].Some?)
  {
    var n := |files| - 1;
    var init := files[..n];
    assert files == init + [files[n]];
    ScanEndsAtBest(st, init);
    BestIsMaximum(st, init);
    KeptHaveIndexes(st, DOMAIN_UNSIGNED, init);
    if Best(st, init) >= 0 && !st.isNew && Best(st, init) < st.CurLevel() {
      UpgradeKeepsFirst(st, init);
    }
  }

  /** Which files are kept when the highest level is above zero and counts: all from the
      index domain that decides, and, for an upgrade to exactly the current level, the ones
      scanned before the deciding file. */
  lemma {:induction false} KeptFiles(st: Setting, files: seq<Option<nat>>, decider: nat, k: nat)
    requires st.Valid() && ValidFiles(st, files) && decider < |files| && Decides(st, files, decider)
    requires st.Level(files[decider].value) > 0
    ensures k in ScanFiles(st, DOMAIN_UNSIGNED, files).kept <==>
            && k < |files| && files[k].Some?
            && (|| files[k] == files[decider]
                || (!st.isNew && st.Level(files[decider].value) == st.CurLevel() && k < decider))
  {
    var n := |files| - 1;
    if decider < n {
      KeptBehind(st, files, decider);
      hide ScanFiles;
      KeptFiles(st, files[..n], decider, k);
    } else {
      KeptAtDecider(st, files, k);
    }
  }

  // ---- The summary

  /** A package as far as trust is concerned: whether it is to be installed or upgraded,
      and whether it is new. */
  datatype Package = Package(name: string, upgrade: bool, isNew: bool)

  datatype Item = End | NotCertified(name: string) | DomainsViolated(name: string)

  function PackageItems(ds: seq<Domain>, p: Package, cur: nat, domain: nat): seq<Item>
    requires cur < |ds| && domain < |ds|
  {
    (if p.upgrade && !ds[domain].certified then [NotCertified(p.name)] else []) +
    (if p.upgrade && !p.isNew && ds[domain].level < ds[cur].level then [DomainsViolated(p.name)] else [])
  }

  predicate ValidIndexes(ds: seq<Domain>, s: seq<nat>) {
    forall i :: 0 <= i < |s| ==> s[i] < |ds|
  }

  function TrustItems(ds: seq<Domain>, ps: seq<Package>, cur: seq<nat>, next: seq<nat>): seq<Item>
    requires |ps| == |cur| == |next| && ValidIndexes(ds, cur) && ValidIndexes(ds, next)
  {
    if ps == [] then []
    else
      var n := |ps| - 1;
      TrustItems(ds, ps[..n], cur[..n], next[..n]) + PackageItems(ds, ps[n], cur[n], next[n])
  }

  /** What the report about a package may say. */
  predicate Reportable(ds: seq<Domain>, p: Package, cur: nat, domain: nat, item: Item)
    requires cur < |ds| && domain < |ds|
  {
    match item
    case End => false
    case NotCertified(name) => p.name == name && p.upgrade && !ds[domain].certified
    case DomainsViolated(name) => p.name == name && p.upgrade && !p.isNew && ds[domain].level < ds[cur].level
  }

  /** A missing certificate is reported first, and nothing twice. */
  lemma OnePackage(ds: seq<Domain>, p: Package, cur: nat, domain: nat)
    requires cur < |ds| && domain < |ds|
    ensures forall item :: item in PackageItems(ds, p, cur, domain) <==> Reportable(ds, p, cur, domain, item)
    ensures var items := PackageItems(ds, p, cur, domain);
            |items| <= 2 && (|items| == 2 ==> items[0] == NotCertified(p.name) && items[1] == DomainsViolated(p.name))
  {
  }

  lemma {:induction false} ReportableIsReported(ds: seq<Domain>, ps: seq<Package>, cur: seq<nat>,
                                                next: seq<nat>, item: Item, i: nat)
    requires |ps| == |cur| == |next| && ValidIndexes(ds, cur) && ValidIndexes(ds, next)
    requires i < |ps| && Reportable(ds, ps[i], cur[i], next[i], item)
    ensures item in TrustItems(ds, ps, cur, next)
  {
    hide Reportable, PackageItems;
    var n := |ps| - 1;
    if i == n {
      OnePackage(ds, ps[n], cur[n], next[n]);
    } else {
      ReportableIsReported(ds, ps[..n], cur[..n], next[..n], item, i);
    }
  }

  lemma {:induction false} ReportedIsReportable(ds: seq<Domain>, ps: seq<Package>, cur: seq<nat>, next: seq<nat>, item: Item)
    returns (i: nat)
    requires |ps| == |cur| == |next| && ValidIndexes(ds, cur) && ValidIndexes(ds, next)
    requires item in TrustItems(ds, ps, cur, next)
    ensures i < |ps| && Reportable(ds, ps[i], cur[i], next[i], item)
  {
    hide Reportable, PackageItems;
    i := |ps| - 1;
    OnePackage(ds, ps[i], cur[i], next[i]);
    if !Reportable(ds, ps[i], cur[i], next[i], item) {
      i := ReportedIsReportable(ds, ps[..i], cur[..i], next[..i], item);
    }
  }

  lemma ItemsSayDomain(ds: seq<Domain>, ps: seq<Package>, cur: seq<nat>, next: seq<nat>, item: Item)
    requires |ps| == |cur| == |next| && ValidIndexes(ds, cur) && ValidIndexes(ds, next)
    ensures item in TrustItems(ds, ps, cur, next) <==>
            exists i :: 0 <= i < |ps| && Reportable(ds, ps[i], cur[i], next[i], item)
  {
    hide Reportable, TrustItems;
    if i :| 0 <= i < |ps| && Reportable(ds, ps[i], cur[i], next[i], item) {
      ReportableIsReported(ds, ps, cur, next, item, i);
    }
    if item in TrustItems(ds, ps, cur, next) {
      var i := ReportedIsReportable(ds, ps, cur, next, item);
    }
  }

  lemma SliceOfSlice<T>(s: seq<T>, n: nat, m: nat)
    requires n <= m <= |s|
    ensures s[n..][..m - n] == s[..m][n..] && s[..m][..n] == s[..n]
  {
  }

  /** Packages are reported in order: the report about some and then others is that about
      the ones followed by that about the others. */
  lemma {:induction false} ReportsInOrder(ds: seq<Domain>, ps: seq<Package>, cur: seq<nat>, next: seq<nat>, n: nat)
    requires |ps| == |cur| == |next| && ValidIndexes(ds, cur) && ValidIndexes(ds, next) && n <= |ps|
    ensures TrustItems(ds, ps, cur, next) ==
            TrustItems(ds, ps[..n], cur[..n], next[..n]) + TrustItems(ds, ps[n..], cur[n..], next[n..])
  {
    hide PackageItems;
    if n == |ps| {
      assert ps[..n] == ps && cur[..n] == cur && next[..n] == next;
    } else {
      var m := |ps| - 1;
      ReportsInOrder(ds, ps[..m], cur[..m], next[..m], n);
      SliceOfSlice(ps, n, m);
      SliceOfSlice(cur, n, m);
      SliceOfSlice(next, n, m);
    }
  }

  /** The new domains after all files of all packages have been scanned. */
  function NewDomains(ds: seq<Domain>, ps: seq<Package>, cur: seq<nat>, files: seq<seq<Option<nat>>>): (r: seq<nat>)
    requires ValidDomains(ds) && |ps| == |cur| == |files| && ValidIndexes(ds, cur)
    requires forall i :: 0 <= i < |ps| ==> ValidFiles(Setting(ds, cur[i], ps[i].isNew), files[i])
    ensures |r| == |ps| && ValidIndexes(ds, r)
    ensures forall i :: 0 <= i < |ps| ==>
              r[i] == ScanFiles(Setting(ds, cur[i], ps[i].isNew), DOMAIN_UNSIGNED, files[i]).domain
  {
    seq(|ps|, i requires 0 <= i < |ps| => ScanFiles(Setting(ds, cur[i], ps[i].isNew), DOMAIN_UNSIGNED, files[i]).domain)
  }

  /** A violation is reported for an upgrade exactly when the installed version comes from
      a domain of some trust and no source reaches that. */
  lemma ViolationMeansNoSourceReaches(ds: seq<Domain>, ps: seq<Package>, cur: seq<nat>,
                                      files: seq<seq<Option<nat>>>, name: string)
    requires ValidDomains(ds) && |ps| == |cur| == |files| && ValidIndexes(ds, cur)
    requires forall i :: 0 <= i < |ps| ==> ValidFiles(Setting(ds, cur[i], ps[i].isNew), files[i])
    ensures DomainsViolated(name) in TrustItems(ds, ps, cur, NewDomains(ds, ps, cur, files)) <==>
            exists i :: 0 <= i < |ps| && ps[i].name == name && ps[i].upgrade && !ps[i].isNew && ds[cur[i]].level > 0
                        && forall f :: f in files[i] && f.Some? ==> ds[f.value].level < ds[cur[i]].level
  {
    var next := NewDomains(ds, ps, cur, files);
    ItemsSayDomain(ds, ps, cur, next, DomainsViolated(name));
    forall i | 0 <= i < |ps| && !ps[i].isNew
      ensures ds[next[i]].level < ds[cur[i]].level <==>
              ds[cur[i]].level > 0 && forall f :: f in files[i] && f.Some? ==> ds[f.value].level < ds[cur[i]].level
    {
      var st := Setting(ds, cur[i], ps[i].isNew);
      ScanEndsAtBest(st, files[i]);
      BestIsMaximum(st, files[i]);
    }
  }

  /** The deciding file has an index in a certified domain. */
  ghost predicate CertifiedSource(st: Setting, files: seq<Option<nat>>)
    requires st.Valid() && ValidFiles(st, files)
  {
    exists k :: 0 <= k < |files| && Decides(st, files, k) && st.domains[files[k].value].certified
  }

  lemma CertifiedDomain(st: Setting, files: seq<Option<nat>>)
    requires st.Valid() && ValidFiles(st, files)
    ensures st.domains[ScanFiles(st, DOMAIN_UNSIGNED, files).domain].certified <==> CertifiedSource(st, files)
  {
    hide Decides, ScanFiles;
    if ScanFiles(st, DOMAIN_UNSIGNED, files).domain != DOMAIN_UNSIGNED {
      var k := DomainIsDecided(st, files);
    }
    forall k | 0 <= k < |files| && Decides(st, files, k)
      ensures files[k] == Some(ScanFiles(st, DOMAIN_UNSIGNED, files).domain)
    {
      DecidedDomain(st, files, k);
    }
  }

  /** A package to be installed or upgraded is reported as not certified exactly when the
      source that decides about its domain is not certified, or there is none. */
  lemma NotCertifiedMeansNoCertifiedSource(ds: seq<Domain>, ps: seq<Package>, cur: seq<nat>,
                                           files: seq<seq<Option<nat>>>, name: string)
    requires ValidDomains(ds) && |ps| == |cur| == |files| && ValidIndexes(ds, cur)
    requires forall i :: 0 <= i < |ps| ==> ValidFiles(Setting(ds, cur[i], ps[i].isNew), files[i])
    ensures NotCertified(name) in TrustItems(ds, ps, cur, NewDomains(ds, ps, cur, files)) <==>
            exists i :: 0 <= i < |ps| && ps[i].name == name && ps[i].upgrade
                        && !CertifiedSource(Setting(ds, cur[i], ps[i].isNew), files[i])
  {
    hide CertifiedSource, TrustItems;
    var next := NewDomains(ds, ps, cur, files);
    ItemsSayDomain(ds, ps, cur, next, NotCertified(name));
    forall i | 0 <= i < |ps|
      ensures ds[next[i]].certified <==> CertifiedSource(Setting(ds, cur[i], ps[i].isNew), files[i])
    {
      CertifiedDomain(Setting(ds, cur[i], ps[i].isNew), files[i]);
    }
  }

  // ---- In place

  /** The worker's extra information about packages, one entry for each of them. */
  class TrustInfo {
    const domains: seq<Domain>
    const packages: seq<Package>
    const curDomain: seq<nat>
    const newDomain: array<nat>

    ghost predicate Valid()
      reads this, newDomain
    {
      && ValidDomains(domains) && |packages| == |curDomain| == newDomain.Length
      && ValidIndexes(domains, curDomain) && ValidIndexes(domains, newDomain[..])
    }

    function SettingOf(p: nat): Setting
      requires p < |packages| && p < |curDomain|
    {
      Setting(domains, curDomain[p], packages[p].isNew)
    }

    constructor (domains: seq<Domain>, packages: seq<Package>, curDomain: seq<nat>)
      requires ValidDomains(domains) && |packages| == |curDomain| && ValidIndexes(domains, curDomain)
      ensures Valid() && fresh(newDomain)
      ensures this.domains == domains && this.packages == packages && this.curDomain == curDomain
    {
      this.domains, this.packages, this.curDomain := domains, packages, curDomain;
      newDomain := new nat[|packages|](_ => DOMAIN_UNSIGNED);
    }

    method ResetNewDomains()
      requires Valid()
      modifies newDomain
      ensures Valid() && forall i :: 0 <= i < newDomain.Length ==> newDomain[i] == DOMAIN_UNSIGNED
    {
      for i := 0 to newDomain.Length
        invariant Valid() && forall k :: 0 <= k < i ==> newDomain[k] == DOMAIN_UNSIGNED
      {
        newDomain[i] := DOMAIN_UNSIGNED;
      }
    }

    /** The level that an index in domain `d` counts as for a package. */
    method IndexTrustLevelForPackage(d: nat, p: nat) returns (level: int)
      requires Valid() && p < |packages| && d < |domains|
      modifies newDomain
      ensures Valid() && (newDomain[p], level) == Consider(SettingOf(p), old(newDomain[p]), d)
      ensures forall q :: 0 <= q < newDomain.Length && q != p ==> newDomain[q] == old(newDomain[q])
    {
      var curLevel, indexLevel := domains[curDomain[p]].level, domains[d].level;
      if newDomain[p] != DOMAIN_UNSIGNED {
        var newLevel := domains[newDomain[p]].level;
        if d == newDomain[p] || indexLevel > newLevel {
          newDomain[p] := d;
          return indexLevel;
        }
        return -1;
      }
      if packages[p].isNew {
        newDomain[p] := d;
        return indexLevel;
      }
      if indexLevel >= curLevel {
        newDomain[p] := d;
        return indexLevel;
      }
      return curLevel;
    }

    /** Scans the files of a version and keeps the most trusted. */
    method TrustLevel(p: nat, files: seq<Option<nat>>) returns (level: int, trusted: seq<nat>)
      requires Valid() && p < |packages| && ValidFiles(SettingOf(p), files)
      modifies newDomain
      ensures Valid()
      ensures Scan(newDomain[p], level, trusted) == ScanFiles(SettingOf(p), old(newDomain[p]), files)
      ensures forall q :: 0 <= q < newDomain.Length && q != p ==> newDomain[q] == old(newDomain[q])
    {
      level, trusted := 0, [];
      assert files[..0] == [];
      for i := 0 to |files|
        invariant Valid() && ValidFiles(SettingOf(p), files[..i])
        invariant Scan(newDomain[p], level, trusted) == ScanFiles(SettingOf(p), old(newDomain[p]), files[..i])
        invariant forall q :: 0 <= q < newDomain.Length && q != p ==> newDomain[q] == old(newDomain[q])
      {
        assert files[..i + 1][..i] == files[..i];
        assert files[i] in files;
        if files[i].None? {
          continue;
        }
        var l := IndexTrustLevelForPackage(files[i].value, p);
        if l >= level {
          if l > level {
            trusted := [];
          }
          trusted := trusted + [i];
          level := l;
        }
      }
      assert files[..|files|] == files;
    }

    method EncodeTrustSummary() returns (response: seq<Item>)
      requires Valid()
      ensures response == TrustItems(domains, packages, curDomain, newDomain[..]) + [End]
    {
      response := [];
      for i := 0 to |packages|
        invariant ValidIndexes(domains, curDomain[..i]) && ValidIndexes(domains, newDomain[..i])
        invariant response == TrustItems(domains, packages[..i], curDomain[..i], newDomain[..i])
      {
        assert packages[..i + 1][..i] == packages[..i] && curDomain[..i + 1][..i] == curDomain[..i];
        assert newDomain[..i + 1][..i] == newDomain[..i];
        var p, cur, domain := packages[i], curDomain[i], newDomain[i];
        if p.upgrade && !domains[domain].certified {
          response := response + [NotCertified(p.name)];
        }
        if p.upgrade && !p.isNew && domains[domain].level < domains[cur].level {
          response := response + [DomainsViolated(p.name)];
        }
      }
      assert packages[..|packages|] == packages && curDomain[..|packages|] == curDomain;
      assert newDomain[..|packages|] == newDomain[..];
      response := response + [End];
    }
  }
}
