/** The user's catalogues written to the disk as XML and read back. */
module CatalogueDisk {
  import opened Xexps
  import opened Catalogues
  import opened CatalogueProofs
  import X = Xml
  import opened XmlProofs

  ghost predicate Writable(x: Xexp) {
    Printable(x) && NoReturns(x)
  }

  lemma {:induction false} FoundIsWritable(ks: seq<Xexp>, tag: string)
    requires forall k :: k in ks ==> Writable(k)
    ensures Find(ks, tag).Some? ==> Writable(Find(ks, tag).value)
  {
    if ks != [] && ks[0].tag != tag {
      FoundIsWritable(ks[1..], tag);
    }
  }

  lemma NewTextIsWritable(x: Xexp, tag: string, at: string)
    requires Writable(x) && ArefText(x, at).Some? && X.ValidName(tag)
    ensures Writable(NewText(tag, ArefText(x, at).value))
  {
    FoundIsWritable(x.kids, at);
  }

  lemma {:induction false} NothingToDrop(ks: seq<Xexp>, tag: string)
    requires forall k :: k in ks ==> k.tag != tag
    ensures Drop(ks, tag) == ks
  {
    if ks != [] {
      NothingToDrop(ks[1..], tag);
    }
  }

  /** The children of a reference: file, id, and the flag if it is set. */
  lemma ReferenceForm(x: Xexp)
    requires KeyOf(x).Some?
    ensures Reference(x) ==
            List("catalogue", [NewText("file", ArefText(x, "file").value), NewText("id", ArefText(x, "id").value)] +
                              if ArefBool(x, "disabled") then [List("disabled", [])] else [])
  {
    hide ArefBool;
    var file, id := NewText("file", ArefText(x, "file").value), NewText("id", ArefText(x, "id").value);
    var flag := if ArefBool(x, "disabled") then [List("disabled", [])] else [];
    assert AsetBool(List("catalogue", []), "disabled", ArefBool(x, "disabled")) == List("catalogue", flag);
    NothingToDrop(flag, "id");
    NothingToDrop([id] + flag, "file");
    assert [file] + ([id] + flag) == [file, id] + flag;
  }

  lemma NamesAreValid()
    ensures X.ValidName("catalogue") && X.ValidName("catalogues") && X.ValidName("disabled")
    ensures X.ValidName("file") && X.ValidName("id")
  {
  }

  lemma ReferenceIsWritable(x: Xexp)
    requires Writable(x) && KeyOf(x).Some?
    ensures Writable(Reference(x))
  {
    hide Reference, NewText;
    ReferenceForm(x);
    NamesAreValid();
    NewTextIsWritable(x, "file", "file");
    NewTextIsWritable(x, "id", "id");
    assert Writable(List("disabled", []));
    forall k | k in Reference(x).kids
      ensures Writable(k)
    {
    }
  }

  lemma {:induction false} AllWritable(cats: seq<Xexp>)
    requires forall x :: x in cats ==> Writable(x)
    ensures forall x :: x in WriteUserCatalogues(cats) ==> Writable(x)
  {
    if cats != [] {
      AllWritable(cats[..|cats| - 1]);
      var x := cats[|cats| - 1];
      if KeyOf(x).Some? {
        ReferenceIsWritable(x);
      }
    }
  }

  /** The file as XML text, parsed again, is what persists. */
  lemma PersistenceOnDisk(pkgs: seq<Xexp>, cats: seq<Xexp>, distribution: string)
    requires forall x :: x in cats ==> Writable(x)
    ensures var file := X.Parse(X.Write(List("catalogues", WriteUserCatalogues(cats)), 0));
            file.Some? && file.value.List? &&
            AddUserCatalogues(pkgs, file.value.kids, distribution)
            == Overridden(pkgs, cats) + UsersOwn(cats, distribution)
  {
    var conf := List("catalogues", WriteUserCatalogues(cats));
    AllWritable(cats);
    NamesAreValid();
    XmlRoundTrip(conf);
    Persistence(pkgs, cats, distribution);
  }
}
