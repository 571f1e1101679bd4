/** Reading and writing catalogues in place: lists that are popped, appended to and have
    flags set. */
module CatalogueFiles {
  import opened Wrappers
  import opened Xexps
  import C = Catalogues

  class CatalogueList {
    var items: seq<Xexp>

    constructor ()
      ensures items == []
    {
      items := [];
    }

    constructor FromFile(content: seq<Xexp>)
      ensures items == content
    {
      items := content;
    }

    method Pop() returns (m: Option<Xexp>)
      modifies this
      ensures old(items) == [] ==> m == None && items == []
      ensures old(items) != [] ==> m == Some(old(items)[0]) && items == old(items)[1..]
    {
      if items == [] {
        return None;
      }
      m := Some(items[0]);
      items := items[1..];
    }

    method Append1(m: Xexp)
      modifies this
      ensures items == old(items) + [m]
    {
      items := items + [m];
    }

    method Del(n: nat)
      requires n < |items|
      modifies this
      ensures items == old(items)[..n] + old(items)[n + 1..]
    {
      items := items[..n] + items[n + 1..];
    }

    /** The first catalogue with this file and id, ignoring the case of ASCII letters. */
    method FindPackageCatalogue(id: Option<string>, file: Option<string>) returns (n: nat)
      ensures n == C.FindPackage(if file.Some? && id.Some?
                                 then Some(C.CatKey(C.AsciiLower(file.value), C.AsciiLower(id.value))) else None, items)
    {
      ghost var key := if file.Some? && id.Some?
                       then Some(C.CatKey(C.AsciiLower(file.value), C.AsciiLower(id.value))) else None;
      if file.None? || id.None? {
        return |items|;
      }
      n := 0;
      while n < |items|
        invariant n <= |items|
        invariant forall i :: 0 <= i < n ==> C.KeyOf(items[i]) != key
      {
        var pfile, pid := C.ArefText(items[n], "file"), C.ArefText(items[n], "id");
        if pfile.Some? && pid.Some? && C.AsciiLower(file.value) == C.AsciiLower(pfile.value) &&
           C.AsciiLower(id.value) == C.AsciiLower(pid.value) {
          return;
        }
        n := n + 1;
      }
    }

    /** Moves the valid catalogues of a package file here. */
    method AddPackageCatalogues(cat: CatalogueList, file: string, distribution: string)
      requires cat != this
      modifies this, cat
      ensures items == C.AddPackageCatalogues(old(items), old(cat.items), file, distribution)
      ensures cat.items == []
    {
      while true
        invariant C.AddPackageCatalogues(items, cat.items, file, distribution)
                  == C.AddPackageCatalogues(old(items), old(cat.items), file, distribution)
        decreases |cat.items|
      {
        var m := cat.Pop();
        if m.None? {
          return;
        }
        if C.ArefText(m.value, "id").None? {
          continue;
        }
        if !C.IsValid(m.value, distribution) {
          continue;
        }
        Append1(C.AsetText(m.value, "file", Some(file)));
      }
    }

    /** Moves the user's own catalogues here and sets the flags of the others. */
    method AddUserCatalogues(syscat: CatalogueList?, distribution: string)
      requires syscat != this
      modifies this, syscat
      ensures items == if syscat == null then old(items)
                       else C.AddUserCatalogues(old(items), old(syscat.items), distribution)
    {
      if syscat == null {
        return;
      }
      while true
        invariant C.AddUserCatalogues(items, syscat.items, distribution)
                  == C.AddUserCatalogues(old(items), old(syscat.items), distribution)
        decreases |syscat.items|
      {
        var m := syscat.Pop();
        if m.None? {
          return;
        }
        var sfile, sid := C.ArefText(m.value, "file"), C.ArefText(m.value, "id");
        if (sfile.None? || sid.None?) && C.IsValid(m.value, distribution) {
          Append1(m.value);
        } else {
          var sdisabled := C.ArefBool(m.value, "disabled");
          var n := FindPackageCatalogue(sid, sfile);
          if n < |items| {
            items := items[n := C.AsetBool(items[n], "disabled", sdisabled)];
          }
        }
      }
    }
  }

  /** All catalogues, from the package files and the file of the user. */
  method ReadCatalogues(files: seq<(string, seq<Xexp>)>, conf: Option<seq<Xexp>>, distribution: string)
    returns (global: CatalogueList)
    ensures fresh(global)
    ensures global.items == C.AddUserCatalogues(C.PackageCatalogues(files, distribution),
                                                if conf.Some? then conf.value else [], distribution)
  {
    global := new CatalogueList();
    for i := 0 to |files|
      invariant fresh(global) && global.items == C.PackageCatalogues(files[..i], distribution)
    {
      var cat := new CatalogueList.FromFile(files[i].1);
      global.AddPackageCatalogues(cat, files[i].0, distribution);
      assert files[..i + 1][..i] == files[..i];
    }
    assert files[..|files|] == files;
    if conf.Some? {
      var syscat := new CatalogueList.FromFile(conf.value);
      global.AddUserCatalogues(syscat, distribution);
    }
  }

  /** What goes into the file of the user. */
  method WriteUserCatalogues(catalogues: CatalogueList) returns (usercat: CatalogueList)
    ensures fresh(usercat) && usercat.items == C.WriteUserCatalogues(catalogues.items)
  {
    usercat := new CatalogueList();
    for i := 0 to |catalogues.items|
      invariant fresh(usercat) && usercat.items == C.WriteUserCatalogues(catalogues.items[..i])
    {
      var x := catalogues.items[i];
      assert catalogues.items[..i + 1][..i] == catalogues.items[..i];
      if x.tag == "catalogue" {
        if C.ArefText(x, "file").Some? && C.ArefText(x, "id").Some? {
          var newrep := List("catalogue", []);
          newrep := C.AsetBool(newrep, "disabled", C.ArefBool(x, "disabled"));
          newrep := C.AsetText(newrep, "id", C.ArefText(x, "id"));
          newrep := C.AsetText(newrep, "file", C.ArefText(x, "file"));
          usercat.Append1(newrep);
        } else {
          usercat.Append1(x);
        }
      }
    }
    assert catalogues.items[..|catalogues.items|] == catalogues.items;
  }
}
